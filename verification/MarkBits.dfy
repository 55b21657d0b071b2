/** The mark bitmap of a heap space and the forwarding addresses computed from it (vm/mark_bits.hpp).
    Addresses count cells from the start of the space; a line is two cells (data_alignment). */
module MarkBits {
  import opened Bits

  const LineSize: nat := 2
  const WordBits: nat := 64
  const AllOnes: int := 0xffff_ffff_ffff_ffff

  type Word = w: int | 0 <= w <= AllOnes

  lemma Pow2At64()
    ensures Pow2(64) == AllOnes + 1 && Pow2(63) == 0x8000_0000_0000_0000
  {
    Pow2At62();
    Pow2Add(62, 2);
    Pow2Add(62, 1);
    assert Pow2(1) == 2 && Pow2(2) == 4;
  }

  // Whether a line is marked
  ghost predicate Marked(bits: seq<Word>, line: nat)
    requires line < WordBits * |bits|
  {
    Bit(bits[line / WordBits], line % WordBits)
  }

  // The number of marked lines below n
  ghost function Rank(bits: seq<Word>, n: nat): (r: nat)
    requires n <= WordBits * |bits|
    ensures r <= n
  {
    if n == 0 then 0 else Rank(bits, n - 1) + (if Marked(bits, n - 1) then 1 else 0)
  }

  lemma RankZero(bits: seq<Word>)
    ensures Rank(bits, 0) == 0
  {}

  // ----- properties of ranks: forwarding is strictly monotone on marked lines, dense, never upward

  lemma {:induction false} RankMono(bits: seq<Word>, m: nat, n: nat)
    requires m <= n <= WordBits * |bits|
    ensures Rank(bits, m) <= Rank(bits, n) <= Rank(bits, m) + (n - m)
    ensures m < n && Marked(bits, m) ==> Rank(bits, m) < Rank(bits, n)
    decreases n
  {
    if m < n {
      if m < n - 1 {
        RankMono(bits, m, n - 1);
      }
    }
  }

  lemma {:induction false} RankAllMarked(bits: seq<Word>, m: nat, n: nat)
    requires m <= n <= WordBits * |bits| && forall l :: m <= l < n ==> Marked(bits, l)
    ensures Rank(bits, n) == Rank(bits, m) + (n - m)
    decreases n
  {
    if m < n {
      RankAllMarked(bits, m, n - 1);
    }
  }

  lemma {:induction false} RankNoneMarked(bits: seq<Word>, m: nat, n: nat)
    requires m <= n <= WordBits * |bits| && forall l :: m <= l < n ==> !Marked(bits, l)
    ensures Rank(bits, n) == Rank(bits, m)
    decreases n
  {
    if m < n {
      RankNoneMarked(bits, m, n - 1);
    }
  }

  // Every line below the total rank receives exactly one marked line.
  lemma {:induction false} RankDense(bits: seq<Word>, n: nat, r: nat) returns (l: nat)
    requires n <= WordBits * |bits| && r < Rank(bits, n)
    ensures l < n && Marked(bits, l) && Rank(bits, l) == r
    decreases n
  {
    if r < Rank(bits, n - 1) {
      l := RankDense(bits, n - 1, r);
    } else {
      l := n - 1;
    }
  }

  // ----- population counts

  // popcount of the bits below n
  ghost function PopTo(w: int, n: nat): nat {
    if n == 0 then 0 else PopTo(w, n - 1) + (if Bit(w, n - 1) then 1 else 0)
  }

  lemma {:induction false} PopToAgree(w: int, v: int, n: nat)
    requires forall i :: 0 <= i < n ==> Bit(w, i) == Bit(v, i)
    ensures PopTo(w, n) == PopTo(v, n)
  {
    if n > 0 {
      PopToAgree(w, v, n - 1);
    }
  }

  lemma {:induction false} PopToBeyond(w: int, k: nat, n: nat)
    requires k <= n && forall i :: k <= i < n ==> !Bit(w, i)
    ensures PopTo(w, n) == PopTo(w, k)
  {
    if k < n {
      PopToBeyond(w, k, n - 1);
    }
  }

  // popcount(w & ((1 << k) - 1)) counts the bits below k.
  lemma MaskedPop(w: Word, k: nat)
    requires k < WordBits
    ensures PopTo(WordOp(And, w, Pow2(k) - 1, WordBits), WordBits) == PopTo(w, k)
  {
    hide Bit, WordOp;
    var masked := WordOp(And, w, Pow2(k) - 1, WordBits);
    forall i | 0 <= i < WordBits ensures Bit(masked, i) <==> Bit(w, i) && i < k {
      WordOpBit(And, w, Pow2(k) - 1, WordBits, i);
      MaskBit(k, i);
    }
    PopToBeyond(masked, k, WordBits);
    PopToAgree(masked, w, k);
  }

  lemma {:induction false} RankInWord(bits: seq<Word>, w: nat, k: nat)
    requires w < |bits| && k <= WordBits
    ensures Rank(bits, WordBits * w + k) == Rank(bits, WordBits * w) + PopTo(bits[w], k)
  {
    if k > 0 {
      RankInWord(bits, w, k - 1);
      var line := WordBits * w + (k - 1);
      assert line / WordBits == w && line % WordBits == k - 1;
      assert Rank(bits, line + 1) == Rank(bits, line) + (if Marked(bits, line) then 1 else 0);
    }
  }

  // popcount and the two bit searches of vm/bitwise_hacks.hpp
  function PopCount(w: int, n: nat): (c: nat)
    ensures c <= n
    decreases n, w
  {
    if n == 0 then 0 else (if w % 2 == 1 then 1 else 0) + PopCount(w / 2, n - 1)
  }

  lemma {:induction false} PopCountIsPopTo(w: int, n: nat)
    ensures PopCount(w, n) == PopTo(w, n)
    decreases n
  {
    if n > 0 {
      PopCountIsPopTo(w / 2, n - 1);
      PopToShift(w, n);
    }
  }

  lemma {:induction false} PopToShift(w: int, n: nat)
    requires n > 0
    ensures PopTo(w, n) == (if w % 2 == 1 then 1 else 0) + PopTo(w / 2, n - 1)
  {
    hide Bit;
    if n == 1 {
      BitZero(w);
      assert PopTo(w, 1) == PopTo(w, 0) + (if Bit(w, 0) then 1 else 0);
    } else {
      PopToShift(w, n - 1);
      BitHalf(w, n - 1);
    }
  }

  lemma IsolatedBit(x: Word)
    requires x > 0
    ensures WordOp(And, x, AllOnes - x + 1, WordBits) == Pow2(Lowest(x))
    ensures Log2(WordOp(And, x, AllOnes - x + 1, WordBits)) == Lowest(x)
  {
    Pow2At64();
    IsolateLowest(x, WordBits);
    assert Pow2(Lowest(x) + 1) == 2 * Pow2(Lowest(x));
    Log2Unique(Pow2(Lowest(x)), Lowest(x));
  }

  // log2(x & (~x + 1)) and log2(~x & (x + 1))
  function RightmostSetBit(x: Word): (n: nat)
    requires x > 0
    ensures n == Lowest(x)
  {
    IsolatedBit(x);
    Log2(WordOp(And, x, AllOnes - x + 1, WordBits))
  }

  function RightmostClearBit(x: Word): (n: nat)
    requires x < AllOnes
    ensures n == Lowest(AllOnes - x)
  {
    IsolatedBit(AllOnes - x);
    Log2(WordOp(And, AllOnes - x, x + 1, WordBits))
  }

  // A line lies in the half-open range of a request.
  predicate Covered(line: nat, first: nat, end: nat) { first <= line < end }

  // `bits` are `before` with exactly the lines from first up to end added, as far as line n.
  ghost predicate RangeSet(before: seq<Word>, bits: seq<Word>, first: nat, end: nat, w: nat) {
    && |bits| == |before| && w <= |bits| && bits[w..] == before[w..]
    && forall l :: 0 <= l < WordBits * w ==> (Marked(bits, l) <==> Marked(before, l) || Covered(l, first, end))
  }

  // A word whose set bits are those from lo up to hi
  ghost predicate IsMask(m: int, lo: nat, hi: nat) {
    forall i :: 0 <= i < WordBits ==> (Bit(m, i) <==> lo <= i < hi)
  }

  // Where a line boundary falls within word w
  function Clip(line: nat, w: nat): nat {
    if line <= WordBits * w then 0 else if line >= WordBits * (w + 1) then WordBits else line - WordBits * w
  }

  // A word of which the bits from lo up to hi have been set
  ghost predicate WordSet(x: Word, y: Word, lo: nat, hi: nat) {
    forall i :: 0 <= i < WordBits ==> (Bit(y, i) <==> Bit(x, i) || lo <= i < hi)
  }

  lemma OrRange(x: Word, mask: Word, lo: nat, hi: nat)
    requires IsMask(mask, lo, hi)
    ensures 0 <= WordOp(Or, x, mask, WordBits) <= AllOnes
    ensures WordSet(x, WordOp(Or, x, mask, WordBits), lo, hi)
  {
    hide Bit, WordOp;
    Pow2At64();
    WordOpRange(Or, x, mask, WordBits);
    forall i | 0 <= i < WordBits ensures Bit(WordOp(Or, x, mask, WordBits), i) <==> Bit(x, i) || lo <= i < hi {
      WordOpBit(Or, x, mask, WordBits, i);
    }
  }

  lemma LowMask(k: nat)
    requires k < WordBits
    ensures 0 <= Pow2(k) - 1 <= AllOnes
    ensures IsMask(Pow2(k) - 1, 0, k) && IsMask(AllOnes - (Pow2(k) - 1), k, WordBits)
  {
    hide Bit;
    Pow2At64();
    Pow2Mono(k, 64);
    var m, c := Pow2(k) - 1, AllOnes - (Pow2(k) - 1);
    forall i | 0 <= i < WordBits ensures (Bit(m, i) <==> 0 <= i < k) && (Bit(c, i) <==> k <= i < WordBits) {
      MaskBit(k, i);
      ComplementBit(m, WordBits, i);
    }
  }

  lemma XorMask(lo: nat, hi: nat)
    requires lo < WordBits && hi < WordBits && lo <= hi
    ensures 0 <= WordOp(Xor, Pow2(lo) - 1, Pow2(hi) - 1, WordBits) <= AllOnes
    ensures IsMask(WordOp(Xor, Pow2(lo) - 1, Pow2(hi) - 1, WordBits), lo, hi)
  {
    hide Bit, WordOp;
    Pow2At64();
    var m := WordOp(Xor, Pow2(lo) - 1, Pow2(hi) - 1, WordBits);
    WordOpRange(Xor, Pow2(lo) - 1, Pow2(hi) - 1, WordBits);
    forall i | 0 <= i < WordBits ensures Bit(m, i) <==> lo <= i < hi {
      WordOpBit(Xor, Pow2(lo) - 1, Pow2(hi) - 1, WordBits, i);
      MaskBit(lo, i);
      MaskBit(hi, i);
    }
  }

  lemma OnesMask()
    ensures forall i :: 0 <= i < WordBits ==> Bit(AllOnes, i)
  {
    Pow2At64();
    forall i | 0 <= i < WordBits ensures Bit(AllOnes, i) {
      MaskBit(64, i);
    }
  }

  // Going on by one word
  lemma RangeWord(before: seq<Word>, bits: seq<Word>, bits': seq<Word>, first: nat, end: nat, w: nat, lo: nat, hi: nat)
    requires RangeSet(before, bits, first, end, w) && w < |bits| && |bits'| == |bits| && bits' == bits[w := bits'[w]]
    requires WordSet(bits[w], bits'[w], lo, hi) && lo == Clip(first, w) && hi == Clip(end, w)
    ensures RangeSet(before, bits', first, end, w + 1)
  {
    hide Bit;
    assert bits[w] == bits[w..][0] == before[w..][0] == before[w];
    assert bits'[w + 1..] == bits[w..][1..] == before[w..][1..] == before[w + 1..];
    forall l | 0 <= l < WordBits * (w + 1)
      ensures Marked(bits', l) <==> Marked(before, l) || Covered(l, first, end)
    {
      if l < WordBits * w {
        assert l / WordBits < w;
        assert Marked(bits, l) == Marked(bits', l);
      } else {
        var i := l % WordBits;
        assert l / WordBits == w && l == WordBits * w + i;
        assert Bit(bits'[w], i) <==> Bit(bits[w], i) || lo <= i < hi;
      }
    }
  }

  // Words outside the range stay as they are.
  lemma RangeSkip(before: seq<Word>, bits: seq<Word>, first: nat, end: nat, w: nat, v: nat)
    requires RangeSet(before, bits, first, end, w) && w <= v <= |bits|
    requires WordBits * v <= first || end <= WordBits * w
    ensures RangeSet(before, bits, first, end, v)
  {
    hide Bit;
    assert bits[v..] == bits[w..][v - w..] == before[w..][v - w..] == before[v..];
    forall l | 0 <= l < WordBits * v
      ensures Marked(bits, l) <==> Marked(before, l) || Covered(l, first, end)
    {
      if l >= WordBits * w {
        assert w <= l / WordBits < v;
        var j := l / WordBits;
        assert bits[j] == bits[w..][j - w] == before[w..][j - w] == before[j];
      }
    }
  }

  // ----- searching a word from bit b on

  // (fixnum)w >> b: the sign bit is smeared into the vacated positions
  function SignedShift(w: Word, b: nat): Word
    requires b < WordBits
  {
    ((if w >= 0x8000_0000_0000_0000 then w - AllOnes - 1 else w) / Pow2(b)) % (AllOnes + 1)
  }

  lemma SignedShiftBit(w: Word, b: nat, i: nat)
    requires b < WordBits && i < WordBits
    ensures Bit(SignedShift(w, b), i) == Bit(w, if b + i < WordBits then b + i else WordBits - 1)
  {
    hide Bit;
    Pow2At64();
    var s := if w >= 0x8000_0000_0000_0000 then w - AllOnes - 1 else w;
    var shifted := s / Pow2(b);
    assert shifted == shifted / (AllOnes + 1) * (AllOnes + 1) + shifted % (AllOnes + 1);
    BitBelow(shifted % (AllOnes + 1), shifted / (AllOnes + 1), 64, i);
    BitShift(s, b, i);
    var j := if b + i < WordBits then b + i else WordBits - 1;
    BitBelow(w, -1, 64, j);
    if b + i >= WordBits {
      BitAbove(s, 63, b + i);
      BitAbove(s, 63, 63);
    }
  }

  lemma LowestInWord(x: Word)
    requires x > 0
    ensures Lowest(x) < WordBits
  {
    Pow2At64();
    LowestIsFirst(x, Lowest(x));
    if Lowest(x) >= WordBits {
      BitAbove(x, 64, Lowest(x));
    }
  }

  // The first clear bit of w from b on
  lemma FirstClear(w: Word, b: nat)
    requires b < WordBits
    ensures SignedShift(w, b) == AllOnes ==> forall j :: b <= j < WordBits ==> Bit(w, j)
    ensures SignedShift(w, b) != AllOnes ==>
      var c := Lowest(AllOnes - SignedShift(w, b));
      b + c < WordBits && !Bit(w, b + c) && forall j :: b <= j < b + c ==> Bit(w, j)
  {
    hide Bit, SignedShift;
    var mask := SignedShift(w, b);
    if mask == AllOnes {
      OnesMask();
      forall j | b <= j < WordBits ensures Bit(w, j) {
        SignedShiftBit(w, b, j - b);
      }
    } else {
      var c := Lowest(AllOnes - mask);
      LowestInWord(AllOnes - mask);
      ClearBit(mask, c);
      if b + c >= WordBits {
        ClearBit(mask, WordBits - 1 - b);
        SignedShiftBit(w, b, c);
        SignedShiftBit(w, b, WordBits - 1 - b);
        assert false;
      }
      SignedShiftBit(w, b, c);
      forall j | b <= j < b + c ensures Bit(w, j) {
        ClearBit(mask, j - b);
        SignedShiftBit(w, b, j - b);
      }
    }
  }

  lemma ClearBit(mask: Word, i: nat)
    requires mask < AllOnes && i <= Lowest(AllOnes - mask) && i < WordBits
    ensures Bit(mask, i) <==> i != Lowest(AllOnes - mask)
  {
    hide Bit;
    Pow2At64();
    LowestIsFirst(AllOnes - mask, i);
    ComplementBit(mask, WordBits, i);
  }

  // The first set bit of w from b on
  lemma FirstSet(w: Word, b: nat)
    requires b < WordBits
    ensures 0 <= w / Pow2(b) <= w
    ensures w / Pow2(b) == 0 ==> forall j :: b <= j < WordBits ==> !Bit(w, j)
    ensures w / Pow2(b) > 0 ==>
      var c := Lowest(w / Pow2(b));
      b + c < WordBits && Bit(w, b + c) && forall j :: b <= j < b + c ==> !Bit(w, j)
  {
    ShiftRange(w, Pow2(b));
    hide Bit;
    Pow2At64();
    var mask := w / Pow2(b);
    if mask == 0 {
      forall j | b <= j < WordBits ensures !Bit(w, j) {
        BitShift(w, b, j - b);
        BitAbove(0, 0, j - b);
      }
    } else {
      var c := Lowest(mask);
      LowestIsFirst(mask, c);
      BitShift(w, b, c);
      if b + c >= WordBits {
        BitAbove(w, 64, b + c);
      }
      forall j | b <= j < b + c ensures !Bit(w, j) {
        LowestIsFirst(mask, j - b);
        BitShift(w, b, j - b);
      }
    }
  }

  lemma ShiftRange(w: int, p: int)
    requires w >= 0 && p >= 1
    ensures 0 <= w / p <= w
  {
    var q := w / p;
    assert w == p * q + w % p;
    if q < 0 {
      MulLe(q, -1, p);
    } else {
      MulLe(1, p, q);
    }
  }

  // w >> b
  function ShiftedWord(w: Word, b: nat): Word
    requires b < WordBits
  {
    ShiftRange(w, Pow2(b));
    w / Pow2(b)
  }

  // The first unmarked line of a word from a bit on
  lemma ClearInWord(bits: seq<Word>, index: nat, bit: nat, mask: Word)
    requires index < |bits| && bit < WordBits && mask == SignedShift(bits[index], bit)
    ensures mask == AllOnes ==> forall l :: WordBits * index + bit <= l < WordBits * (index + 1) ==> Marked(bits, l)
    ensures mask != AllOnes ==>
      var c := Lowest(AllOnes - mask); var at := WordBits * index + bit + c;
      bit + c < WordBits && !Marked(bits, at) && forall l :: WordBits * index + bit <= l < at ==> Marked(bits, l)
  {
    hide Bit, SignedShift, Marked;
    FirstClear(bits[index], bit);
    WordLines(bits, index);
  }

  // The first marked line of a word from a bit on
  lemma SetInWord(bits: seq<Word>, index: nat, bit: nat, mask: Word)
    requires index < |bits| && bit < WordBits && mask == ShiftedWord(bits[index], bit)
    ensures mask == 0 ==> forall l :: WordBits * index + bit <= l < WordBits * (index + 1) ==> !Marked(bits, l)
    ensures mask != 0 ==>
      var c := Lowest(mask); var at := WordBits * index + bit + c;
      bit + c < WordBits && Marked(bits, at) && forall l :: WordBits * index + bit <= l < at ==> !Marked(bits, l)
  {
    hide Bit, Marked;
    FirstSet(bits[index], bit);
    WordLines(bits, index);
  }

  class Bitmap {
    const marked: array<Word>
    const forwarding: array<nat>

    constructor (words: nat)
      ensures Size() == LineSize * WordBits * words && forwarding.Length == words
      ensures forall l :: 0 <= l < WordBits * words ==> !Marked(marked[..], l)
    {
      marked := new Word[words](_ => 0);
      forwarding := new nat[words](_ => 0);
      new;
      forall l | 0 <= l < WordBits * words ensures !Marked(marked[..], l) {
        BitAbove(0, 0, l % WordBits);
      }
    }

    function Size(): nat { LineSize * WordBits * marked.Length }

    // set_bitmap_range on the mark bits: exactly the lines of the request are added
    method SetMarked(address: nat, size: nat)
      requires size > 0 && address + size <= Size()
      modifies marked
      ensures RangeSet(old(marked[..]), marked[..], address / LineSize, (address + size) / LineSize, marked.Length)
    {
      hide RangeSet, WordSet;
      ghost var before := marked[..];
      var first, end := address / LineSize, (address + size) / LineSize;
      var sw, sb := first / WordBits, first % WordBits;
      var ew, eb := end / WordBits, end % WordBits;
      RangeStart(before, first, end, sw);
      LowMask(sb);
      LowMask(eb);
      if sw == ew {
        XorMask(sb, eb);
        OrInto(sw, WordOp(Xor, Pow2(sb) - 1, Pow2(eb) - 1, WordBits), before, first, end, sb, eb);
        RangeSkip(before, marked[..], first, end, sw + 1, marked.Length);
      } else {
        OrInto(sw, AllOnes - (Pow2(sb) - 1), before, first, end, sb, WordBits);
        var index := sw + 1;
        while index < ew
          invariant sw < index <= ew
          invariant RangeSet(before, marked[..], first, end, index)
        {
          ghost var bits := marked[..];
          marked[index] := AllOnes;
          OnesWord(bits[index]);
          RangeWord(before, bits, marked[..], first, end, index, 0, WordBits);
          index := index + 1;
        }
        if Pow2(eb) - 1 != 0 {
          OrInto(ew, Pow2(eb) - 1, before, first, end, 0, eb);
          RangeSkip(before, marked[..], first, end, ew + 1, marked.Length);
        } else {
          RangeSkip(before, marked[..], first, end, ew, marked.Length);
        }
      }
    }

    // compute_forwarding: the rank of the first line of each word
    method ComputeForwarding()
      requires forwarding.Length == marked.Length
      modifies forwarding
      ensures forall w :: 0 <= w < marked.Length ==> forwarding[w] == Rank(marked[..], WordBits * w)
    {
      hide Rank, PopCount, PopTo, Marked;
      ghost var bits := marked[..];
      RankZero(bits);
      var accum: nat := 0;
      var index := 0;
      while index < marked.Length
        invariant 0 <= index <= marked.Length && bits == marked[..]
        invariant accum == Rank(bits, WordBits * index)
        invariant forall w :: 0 <= w < index ==> forwarding[w] == Rank(bits, WordBits * w)
      {
        forwarding[index] := accum;
        PopCountIsPopTo(marked[index], WordBits);
        RankInWord(bits, index, WordBits);
        accum := accum + PopCount(marked[index], WordBits);
        index := index + 1;
      }
    }

    ghost predicate Forwarding()
      reads marked, forwarding
    {
      && forwarding.Length == marked.Length
      && forall w :: 0 <= w < marked.Length ==> forwarding[w] == Rank(marked[..], WordBits * w)
    }

    // forward_block: the destination of a line is its rank
    function ForwardBlock(original: nat): (r: nat)
      requires original < Size() && Forwarding()
      reads marked, forwarding
      ensures r == LineSize * Rank(marked[..], original / LineSize) + original % LineSize
      ensures r <= original
    {
      var line := original / LineSize;
      var w, k := line / WordBits, line % WordBits;
      MaskedPop(marked[w], k);
      PopCountIsPopTo(WordOp(And, marked[w], Pow2(k) - 1, WordBits), WordBits);
      RankInWord(marked[..], w, k);
      LineSize * (forwarding[w] + PopCount(WordOp(And, marked[w], Pow2(k) - 1, WordBits), WordBits))
      + original % LineSize
    }

    // marked_p: the bitmap word masked by the line's bit
    predicate MarkedP(address: nat)
      requires address < Size()
      reads marked
      ensures MarkedP(address) <==> Marked(marked[..], address / LineSize)
    {
      var line := address / LineSize;
      var w, k := line / WordBits, line % WordBits;
      MaskReadsBit(marked[w], k);
      WordOp(And, marked[w], Pow2(k), WordBits) != 0
    }

    // The search of next_unmarked_block_after, in lines
    method UnmarkedLine(line: nat) returns (r: nat)
      requires line <= WordBits * marked.Length
      ensures line <= r <= WordBits * marked.Length
      ensures forall l :: line <= l < r ==> Marked(marked[..], l)
      ensures r < WordBits * marked.Length ==> !Marked(marked[..], r)
    {
      hide Marked, Bit, SignedShift, Lowest;
      ghost var bits := marked[..];
      var index, bit := line / WordBits, line % WordBits;
      ghost var at := line;
      while index < marked.Length
        invariant 0 <= index <= marked.Length && 0 <= bit < WordBits
        invariant index < marked.Length ==> at == WordBits * index + bit
        invariant line <= at <= WordBits * marked.Length && (index == marked.Length ==> at == WordBits * marked.Length)
        invariant forall l :: line <= l < at ==> Marked(bits, l)
      {
        var mask := SignedShift(marked[index], bit);
        ClearInWord(bits, index, bit, mask);
        if mask != AllOnes {
          var clear := RightmostClearBit(mask);
          return index * WordBits + bit + clear;
        }
        bit := 0;
        index := index + 1;
        at := WordBits * index;
      }
      return WordBits * marked.Length;
    }

    // The search of next_marked_block_after, in lines
    method MarkedLine(line: nat) returns (r: nat)
      requires line <= WordBits * marked.Length
      ensures line <= r <= WordBits * marked.Length
      ensures forall l :: line <= l < r ==> !Marked(marked[..], l)
      ensures r < WordBits * marked.Length ==> Marked(marked[..], r)
    {
      hide Marked, Bit, ShiftedWord, Lowest;
      ghost var bits := marked[..];
      var index, bit := line / WordBits, line % WordBits;
      ghost var at := line;
      while index < marked.Length
        invariant 0 <= index <= marked.Length && 0 <= bit < WordBits
        invariant index < marked.Length ==> at == WordBits * index + bit
        invariant line <= at <= WordBits * marked.Length && (index == marked.Length ==> at == WordBits * marked.Length)
        invariant forall l :: line <= l < at ==> !Marked(bits, l)
      {
        var mask := ShiftedWord(marked[index], bit);
        SetInWord(bits, index, bit, mask);
        if mask != 0 {
          var first := RightmostSetBit(mask);
          return index * WordBits + bit + first;
        }
        bit := 0;
        index := index + 1;
        at := WordBits * index;
      }
      return WordBits * marked.Length;
    }

    // next_unmarked_block_after
    method NextUnmarked(original: nat) returns (r: nat)
      requires original <= Size()
      ensures original / LineSize * LineSize <= r <= Size() && r % LineSize == 0
      ensures forall l :: original / LineSize <= l < r / LineSize ==> Marked(marked[..], l)
      ensures r < Size() ==> !Marked(marked[..], r / LineSize)
    {
      hide Marked;
      var line := UnmarkedLine(original / LineSize);
      r := LineSize * line;
    }

    // next_marked_block_after
    method NextMarked(original: nat) returns (r: nat)
      requires original <= Size()
      ensures original / LineSize * LineSize <= r <= Size() && r % LineSize == 0
      ensures forall l :: original / LineSize <= l < r / LineSize ==> !Marked(marked[..], l)
      ensures r < Size() ==> Marked(marked[..], r / LineSize)
    {
      hide Marked;
      var line := MarkedLine(original / LineSize);
      r := LineSize * line;
    }

    method OrInto(w: nat, mask: Word, ghost before: seq<Word>, ghost first: nat, ghost end: nat, ghost lo: nat,
                  ghost hi: nat)
      requires w < marked.Length && RangeSet(before, marked[..], first, end, w)
      requires IsMask(mask, lo, hi) && lo == Clip(first, w) && hi == Clip(end, w)
      modifies marked
      ensures RangeSet(before, marked[..], first, end, w + 1)
    {
      hide RangeSet, WordSet, Bit, WordOp;
      ghost var bits := marked[..];
      OrRange(marked[w], mask, lo, hi);
      marked[w] := WordOp(Or, marked[w], mask, WordBits);
      RangeWord(before, bits, marked[..], first, end, w, lo, hi);
    }
  }

  // A word masked by one bit is zero exactly if the bit is clear.
  lemma MaskReadsBit(w: Word, k: nat)
    requires k < WordBits
    ensures 0 < Pow2(k) <= AllOnes && (WordOp(And, w, Pow2(k), WordBits) != 0 <==> Bit(w, k))
  {
    hide Bit, WordOp;
    Pow2At64();
    Pow2Mono(0, k);
    Pow2Mono(k + 1, WordBits);
    var m := WordOp(And, w, Pow2(k), WordBits);
    WordOpRange(And, w, Pow2(k), WordBits);
    WordOpBit(And, w, Pow2(k), WordBits, k);
    SingleBit(k, k);
    ZeroBit(k);
    if m != 0 {
      var c := Lowest(m);
      LowestIsFirst(m, c);
      LowestInWord(m);
      WordOpBit(And, w, Pow2(k), WordBits, c);
      SingleBit(k, c);
    }
  }

  lemma ZeroBit(k: nat)
    ensures !Bit(0, k)
  {
    BitAbove(0, 0, k);
  }

  // A power of two has one bit.
  lemma SingleBit(k: nat, i: nat)
    ensures Bit(Pow2(k), i) <==> i == k
  {
    if i > k {
      Pow2Mono(k + 1, i);
      BitAbove(Pow2(k), k + 1, i);
    } else {
      Pow2Add(i, k - i);
      QuotientIs(Pow2(k), Pow2(i), Pow2(k - i), 0);
      if i < k {
        assert Pow2(k - i) == 2 * Pow2(k - i - 1);
      }
    }
  }

  // The lines of one word
  lemma WordLines(bits: seq<Word>, w: nat)
    requires w < |bits|
    ensures forall l :: WordBits * w <= l < WordBits * (w + 1) ==> (Marked(bits, l) <==> Bit(bits[w], l - WordBits * w))
  {
    hide Bit;
    forall l | WordBits * w <= l < WordBits * (w + 1)
      ensures Marked(bits, l) <==> Bit(bits[w], l - WordBits * w)
    {
      assert l / WordBits == w && l % WordBits == l - WordBits * w;
    }
  }

  lemma RangeStart(bits: seq<Word>, first: nat, end: nat, w: nat)
    requires w <= |bits| && WordBits * w <= first
    ensures RangeSet(bits, bits, first, end, w)
  {}

  lemma OnesWord(x: Word)
    ensures WordSet(x, AllOnes, 0, WordBits)
  {
    OnesMask();
  }
}
