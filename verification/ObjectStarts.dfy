/** The object start map and the card scan built on it (vm/object_start_map.cpp, vm/slot_visitor.hpp,
    vm/tenured_space.hpp). Addresses count cells from the start of the generation; a card is 32 cells. */
module ObjectStarts {
  import opened Bits
  import opened MarkBits
  import Layouts

  const CardCells: nat := Layouts.CardCells
  // card_starts_inside_object: no object starts in the card
  const Inside: nat := 255

  // The byte offset of an address within its card
  function Offset(a: nat): nat { a % CardCells * 8 }

  // The address an entry of the map stands for
  function StartIn(card: nat, offset: nat): nat { card * CardCells + offset / 8 }

  // An entry holds the offset of the first object that starts in its card.
  ghost predicate EntryOk(offset: nat, starts: set<nat>, card: nat) {
    if offset == Inside then forall a :: a in starts ==> a / CardCells != card
    else
      && offset < 256 && StartIn(card, offset) in starts && Offset(StartIn(card, offset)) == offset
      && forall a :: a in starts && a / CardCells == card ==> StartIn(card, offset) <= a
  }

  ghost predicate MapOk(offsets: seq<nat>, starts: set<nat>) {
    && (forall a :: a in starts ==> a % LineSize == 0)
    && forall c :: 0 <= c < |offsets| ==> EntryOk(offsets[c], starts, c)
  }

  lemma StartParts(a: nat)
    ensures StartIn(a / CardCells, Offset(a)) == a && Offset(a) <= 248
  {}

  lemma StartCard(card: nat, offset: nat)
    requires offset < 256
    ensures StartIn(card, offset) / CardCells == card
  {}

  // A block of the generation: a free block, or an object with its scanned slots
  datatype Block = Block(size: nat, slots: nat, free: bool)

  ghost predicate Linked(blocks: map<nat, Block>, n: nat, a: nat)
    requires a in blocks
  {
    var b := blocks[a];
    b.slots < b.size && (b.free ==> b.slots == 0) && a + b.size <= n && (a + b.size < n ==> a + b.size in blocks)
  }

  // Blocks lie back to back from 0 to n.
  ghost predicate Tiles(blocks: map<nat, Block>, n: nat) {
    && (n > 0 ==> 0 in blocks)
    && (forall a {:trigger Linked(blocks, n, a)} :: a in blocks ==> Linked(blocks, n, a))
    && (forall a, b :: a in blocks && b in blocks && a < b ==> a + blocks[a].size <= b)
  }

  ghost function Starts(blocks: map<nat, Block>): set<nat> { set a | a in blocks && !blocks[a].free }

  // The cells where blocks given in lines start
  function CellStarts(t: map<nat, nat>): set<nat> { set a | a in t :: LineSize * a }

  lemma CellStartsAdd(t: map<nat, nat>, a: nat, size: nat)
    ensures CellStarts(t[a := size]) == CellStarts(t) + {LineSize * a}
  {
    var u := t[a := size];
    forall c | c in CellStarts(t) ensures c in CellStarts(u) {
      var b :| b in t && c == LineSize * b;
      assert b in u;
    }
    assert a in u;
  }

  class StartMap {
    const offsets: array<nat>

    constructor (cards: nat)
      ensures offsets.Length == cards && MapOk(offsets[..], {}) && fresh(offsets)
    {
      offsets := new nat[cards](_ => Inside);
    }

    // clear_object_start_offsets
    method Clear()
      modifies offsets
      ensures MapOk(offsets[..], {})
    {
      forall c | 0 <= c < offsets.Length {
        offsets[c] := Inside;
      }
    }

    // record_object_start_offset
    method Record(a: nat, ghost starts: set<nat>)
      requires a / CardCells < offsets.Length && a % LineSize == 0 && MapOk(offsets[..], starts)
      modifies offsets
      ensures MapOk(offsets[..], starts + {a})
    {
      hide EntryOk, StartIn;
      var c := a / CardCells;
      ghost var before := offsets[..];
      StartParts(a);
      offsets[c] := if Offset(a) < offsets[c] then Offset(a) else offsets[c];
      forall k | 0 <= k < offsets.Length ensures EntryOk(offsets[k], starts + {a}, k) {
        assert EntryOk(before[k], starts, k);
        RecordEntry(before[k], starts, k, a);
      }
    }

    // find_object_containing_card; it fails if no object starts in an earlier card
    method FindObject(card: nat, ghost starts: set<nat>) returns (ok: bool, a: nat)
      requires card <= offsets.Length && MapOk(offsets[..], starts)
      ensures ok <==> card == 0 || exists b :: b in starts && b / CardCells < card
      ensures ok && card > 0 ==> a in starts && a < card * CardCells
      ensures ok && card > 0 ==> forall b :: b in starts && b / CardCells < card ==> b / CardCells <= a / CardCells
      ensures ok && card == 0 ==> a == 0
    {
      hide EntryOk;
      if card == 0 {
        return true, 0;
      }
      var c := card - 1;
      while offsets[c] == Inside
        invariant 0 <= c < card && forall b :: b in starts && b / CardCells < card ==> b / CardCells <= c
        decreases c
      {
        EntryInside(offsets[c], starts, c);
        if c == 0 {
          return false, 0;
        }
        c := c - 1;
      }
      EntryStart(offsets[c], starts, c);
      return true, StartIn(c, offsets[c]);
    }

    // update_for_sweep: afterwards the map describes exactly the marked objects
    method UpdateForSweep(state: Bitmap, ghost blocks: map<nat, Block>)
      requires offsets.Length == 4 * state.marked.Length && state.marked as object != offsets as object
      requires Tiles(blocks, state.Size()) && MarksUniform(blocks, state.marked[..])
      requires MapOk(offsets[..], Starts(blocks))
      modifies offsets
      ensures MapOk(offsets[..], Survivors(blocks, state.marked[..], state.Size()))
    {
      hide EntryOk, Marked, Tiles, MarksUniform, SweepEntry;
      ghost var bits, n := state.marked[..], state.Size();
      ghost var before := offsets[..];
      var index := 0;
      while index < state.marked.Length
        invariant 0 <= index <= state.marked.Length && bits == state.marked[..]
        invariant forall c :: 0 <= c < 4 * index ==> EntryOk(offsets[c], Survivors(blocks, bits, n), c)
        invariant forall c :: 4 * index <= c < offsets.Length ==> offsets[c] == before[c]
      {
        var k := 0;
        while k < 4
          invariant 0 <= k <= 4 && bits == state.marked[..]
          invariant forall c :: 0 <= c < 4 * index + k ==> EntryOk(offsets[c], Survivors(blocks, bits, n), c)
          invariant forall c :: 4 * index + k <= c < offsets.Length ==> offsets[c] == before[c]
        {
          var c := 4 * index + k;
          var mask := state.marked[index] / Pow2(16 * k) % 0x1_0000;
          CardMask(bits, index, k);
          EntryRange(offsets[c], Starts(blocks), c);
          SweepEntryOk(blocks, n, bits, offsets[c], mask, c);
          offsets[c] := SweepEntry(offsets[c], mask);
          k := k + 1;
        }
        index := index + 1;
      }
      KeptEven(blocks, bits, n);
    }
  }

  lemma EntryRange(offset: nat, starts: set<nat>, card: nat)
    requires EntryOk(offset, starts, card)
    ensures offset == Inside || offset < 256
  {}

  lemma KeptEven(blocks: map<nat, Block>, bits: seq<Word>, n: nat)
    requires Tiles(blocks, n) && n == LineSize * WordBits * |bits| && MarksUniform(blocks, bits)
    ensures forall a :: a in Survivors(blocks, bits, n) ==> a % LineSize == 0
  {}

  lemma RecordEntry(offset: nat, starts: set<nat>, card: nat, a: nat)
    requires EntryOk(offset, starts, card) && a % LineSize == 0
    ensures EntryOk(if card == a / CardCells && Offset(a) < offset then Offset(a) else offset, starts + {a}, card)
  {
    StartParts(a);
    if offset != Inside && card == a / CardCells {
      assert StartIn(card, offset) == card * CardCells + offset / 8;
    }
  }

  lemma EntryInside(offset: nat, starts: set<nat>, card: nat)
    requires EntryOk(offset, starts, card) && offset == Inside
    ensures forall a :: a in starts ==> a / CardCells != card
  {}

  lemma EntryStart(offset: nat, starts: set<nat>, card: nat)
    requires EntryOk(offset, starts, card) && offset != Inside
    ensures StartIn(card, offset) in starts && StartIn(card, offset) / CardCells == card
    ensures forall a :: a in starts && a / CardCells == card ==> StartIn(card, offset) <= a
  {
    StartCard(card, offset);
  }

  // ----- the block a cell is in

  lemma Containing(blocks: map<nat, Block>, n: nat, x: nat) returns (a: nat)
    requires Tiles(blocks, n) && x < n
    ensures a in blocks && a <= x < a + blocks[a].size
  {
    a := 0;
    while a + blocks[a].size <= x
      invariant a in blocks && a <= x
      decreases x - a
    {
      assert Linked(blocks, n, a);
      a := a + blocks[a].size;
    }
  }

  // ----- the map after a sweep

  // A block is marked as a whole or not at all, and free blocks are not.
  ghost predicate MarksUniform(blocks: map<nat, Block>, bits: seq<Word>) {
    && (forall a :: a in blocks ==> a % LineSize == 0 && blocks[a].size % LineSize == 0)
    && (forall a, l :: a in blocks && a / LineSize <= l < (a + blocks[a].size) / LineSize && l < WordBits * |bits| ==>
          (Marked(bits, l) <==> Marked(bits, a / LineSize) && !blocks[a].free))
  }

  ghost function Survivors(blocks: map<nat, Block>, bits: seq<Word>, n: nat): set<nat>
    requires Tiles(blocks, n) && n == LineSize * WordBits * |bits|
  {
    set a | a in blocks && !blocks[a].free && MarkedStart(blocks, bits, a)
  }

  ghost predicate MarkedStart(blocks: map<nat, Block>, bits: seq<Word>, a: nat) {
    a / LineSize < WordBits * |bits| && Marked(bits, a / LineSize)
  }

  // The first marked line from an object's start on is where an object starts.
  lemma FirstMarked(blocks: map<nat, Block>, n: nat, bits: seq<Word>, f: nat, l: nat)
    requires Tiles(blocks, n) && n == LineSize * WordBits * |bits| && MarksUniform(blocks, bits)
    requires f in blocks && f / LineSize <= l < WordBits * |bits| && Marked(bits, l)
    requires forall k :: f / LineSize <= k < l ==> !Marked(bits, k)
    ensures l * LineSize in Survivors(blocks, bits, n)
  {
    hide Marked;
    var a := Containing(blocks, n, l * LineSize);
    assert a >= f;
    assert Marked(bits, a / LineSize) && !blocks[a].free;
  }

  // The sixteen mark bits of a card
  ghost predicate MaskOf(mask: int, bits: seq<Word>, card: nat) {
    && 0 <= mask < 0x1_0000 && 16 * card + 16 <= WordBits * |bits|
    && forall i :: 0 <= i < 16 ==> (Bit(mask, i) <==> Marked(bits, 16 * card + i))
  }

  lemma CardMask(bits: seq<Word>, w: nat, k: nat)
    requires w < |bits| && k < 4
    ensures MaskOf(bits[w] / Pow2(16 * k) % 0x1_0000, bits, 4 * w + k)
  {
    hide Bit;
    var x := bits[w] / Pow2(16 * k);
    var mask := x % 0x1_0000;
    assert x == mask + x / 0x1_0000 * 0x1_0000;
    assert Pow2(16) == 0x1_0000 by {
      Pow2Add(8, 8);
      assert Pow2(8) == 256;
    }
    forall i | 0 <= i < 16 ensures Bit(mask, i) <==> Marked(bits, 16 * (4 * w + k) + i) {
      BitBelow(mask, x / 0x1_0000, 16, i);
      BitShift(bits[w], 16 * k, i);
      var line := 16 * (4 * w + k) + i;
      assert line / WordBits == w && line % WordBits == 16 * k + i;
    }
  }

  // update_card_for_sweep: the entry moves to the first marked line at or after it
  function SweepEntry(offset: nat, mask: int): (r: nat)
    requires 0 <= mask < 0x1_0000 && (offset == Inside || offset < 256)
  {
    if offset == Inside then Inside
    else
      FirstSet(mask, offset / 16);
      var m := mask / Pow2(offset / 16);
      if m == 0 then Inside else offset + Lowest(m) * 16
  }

  lemma FirstSet16(mask: int, b: nat)
    requires 0 <= mask < 0x1_0000 && b < 16
    ensures mask / Pow2(b) >= 0
    ensures mask / Pow2(b) == 0 ==> forall j :: b <= j < 16 ==> !Bit(mask, j)
    ensures mask / Pow2(b) > 0 ==>
      var c := Lowest(mask / Pow2(b));
      b + c < 16 && Bit(mask, b + c) && forall j :: b <= j < b + c ==> !Bit(mask, j)
  {
    hide Bit;
    FirstSet(mask, b);
    assert Pow2(16) == 0x1_0000 by {
      Pow2Add(8, 8);
      assert Pow2(8) == 256;
    }
    if mask / Pow2(b) > 0 {
      var c := Lowest(mask / Pow2(b));
      if b + c >= 16 {
        BitAbove(mask, 16, b + c);
      }
    }
  }

  lemma OffsetLine(card: nat, offset: nat)
    requires offset < 256 && StartIn(card, offset) % LineSize == 0 && Offset(StartIn(card, offset)) == offset
    ensures offset % 16 == 0 && StartIn(card, offset) / LineSize == 16 * card + offset / 16
  {
    var q := offset / 8;
    QuotientIs(card * CardCells + q, CardCells, card, q);
    assert offset == 8 * q;
    EvenHalf(card, q);
  }

  lemma EvenHalf(card: nat, q: nat)
    requires (card * CardCells + q) % 2 == 0
    ensures q % 2 == 0 && (card * CardCells + q) / 2 == 16 * card + q / 2 && 8 * q % 16 == 0 && 8 * q / 16 == q / 2
  {
    assert card * CardCells == 2 * (16 * card);
    var t := q / 2;
    assert q == 2 * t;
  }

  lemma LineStart(card: nat, k: nat)
    requires k < 16
    ensures (16 * card + k) * LineSize == StartIn(card, 16 * k) && Offset(StartIn(card, 16 * k)) == 16 * k
    ensures StartIn(card, 16 * k) / CardCells == card
  {
    assert 16 * k / 8 == 2 * k;
    QuotientIs(card * CardCells + 2 * k, CardCells, card, 2 * k);
  }

  // The new entry is right for the surviving objects.
  lemma SweepEntryOk(blocks: map<nat, Block>, n: nat, bits: seq<Word>, offset: nat, mask: int, card: nat)
    requires Tiles(blocks, n) && n == LineSize * WordBits * |bits| && MarksUniform(blocks, bits)
    requires EntryOk(offset, Starts(blocks), card) && MaskOf(mask, bits, card)
    ensures EntryOk(SweepEntry(offset, mask), Survivors(blocks, bits, n), card)
  {
    hide Bit, Marked, Tiles;
    var kept := Survivors(blocks, bits, n);
    assert forall a :: a in kept ==> a in Starts(blocks);
    if offset != Inside {
      var f, k := StartIn(card, offset), offset / 16;
      OffsetLine(card, offset);
      FirstSet16(mask, k);
      var m := mask / Pow2(k);
      forall a | a in kept && a / CardCells == card ensures m > 0 && a / LineSize >= 16 * card + k + Lowest(m) {
        assert a in Starts(blocks) && f <= a;
        var j := a / LineSize - 16 * card;
        assert k <= j < 16 && Marked(bits, 16 * card + j);
        assert Bit(mask, j);
      }
      if m > 0 {
        var l := 16 * card + k + Lowest(m);
        forall i | f / LineSize <= i < l ensures !Marked(bits, i) {
          assert Bit(mask, i - 16 * card) <==> Marked(bits, 16 * card + (i - 16 * card));
        }
        FirstMarked(blocks, n, bits, f, l);
        LineStart(card, k + Lowest(m));
      }
    }
  }

  // ----- scanning cards

  // The scanned slots of a generation
  ghost predicate IsSlot(blocks: map<nat, Block>, x: nat) {
    exists a :: a in blocks && a < x <= a + blocks[a].slots
  }

  ghost predicate Ascending(s: seq<nat>) { forall i, j :: 0 <= i < j < |s| ==> s[i] < s[j] }

  lemma AscendingSnoc(s: seq<nat>, x: nat)
    requires Ascending(s) && forall y :: y in s ==> y < x
    ensures Ascending(s + [x])
  {
    assert forall i :: 0 <= i < |s| ==> s[i] in s;
  }

  // tenured_space::next_object_after: the end stands for "none"
  method NextObjectAfter(blocks: map<nat, Block>, n: nat, scan: nat) returns (a: nat)
    requires Tiles(blocks, n) && scan in blocks
    ensures scan + blocks[scan].size <= a <= n && (a < n ==> a in blocks && !blocks[a].free)
    ensures forall b :: b in blocks && scan < b < a ==> blocks[b].free
  {
    assert Linked(blocks, n, scan);
    a := scan + blocks[scan].size;
    while a != n && blocks[a].free
      invariant scan + blocks[scan].size <= a <= n && (a < n ==> a in blocks)
      invariant forall b :: b in blocks && scan < b < a ==> blocks[b].free
      decreases n - a
    {
      assert Linked(blocks, n, a);
      a := a + blocks[a].size;
    }
  }

  // visit_partial_objects: the slots of one object that lie in [low, high), after those visited so far
  method VisitPartial(blocks: map<nat, Block>, a: nat, low: nat, high: nat, before: seq<nat>)
    returns (visited: seq<nat>)
    requires a in blocks && Ascending(before) && forall x :: x in before ==> x <= a
    ensures Ascending(visited)
    ensures forall x :: x in visited <==> x in before || (low <= x < high && a < x <= a + blocks[a].slots)
  {
    hide Ascending;
    visited := before;
    var scan := if a + 1 < low then low else a + 1;
    var end := if a + 1 + blocks[a].slots < high then a + 1 + blocks[a].slots else high;
    ghost var from := scan;
    while scan < end
      invariant from <= scan && Ascending(visited)
      invariant forall x :: x in visited ==> x < scan
      invariant forall x :: x in visited <==> x in before || (from <= x < scan && x < end)
    {
      AscendingSnoc(visited, scan);
      visited := visited + [scan];
      scan := scan + 1;
    }
  }

  // What is visited are exactly the slots in [low, high) of the blocks below a.
  ghost predicate VisitedBelow(blocks: map<nat, Block>, low: nat, high: nat, visited: seq<nat>, a: nat) {
    && Ascending(visited) && (forall x :: x in visited ==> x <= a)
    && forall x :: x in visited <==> low <= x < high && SlotBelow(blocks, x, a)
  }

  ghost predicate SlotBelow(blocks: map<nat, Block>, x: nat, a: nat) {
    exists b :: b in blocks && b < a && b < x <= b + blocks[b].slots
  }

  // No object before a reaches the address low.
  ghost predicate Clear(blocks: map<nat, Block>, a: nat, low: nat) {
    forall b :: b in blocks && b < a && !blocks[b].free ==> b + blocks[b].size <= low
  }

  lemma ScanStart(blocks: map<nat, Block>, n: nat, low: nat, high: nat, a: nat)
    requires Tiles(blocks, n) && Clear(blocks, a, low)
    ensures VisitedBelow(blocks, low, high, [], a)
  {
    forall x | low <= x < high ensures !SlotBelow(blocks, x, a) {
      forall b | b in blocks && b < a ensures !(b < x <= b + blocks[b].slots) {
        assert Linked(blocks, n, b);
      }
    }
  }

  lemma ScanStep(blocks: map<nat, Block>, n: nat, low: nat, high: nat, before: seq<nat>, a: nat, visited: seq<nat>,
                 next: nat)
    requires Tiles(blocks, n) && a in blocks && VisitedBelow(blocks, low, high, before, a) && Ascending(visited)
    requires forall x :: x in visited <==> x in before || (low <= x < high && a < x <= a + blocks[a].slots)
    requires a + blocks[a].size <= next && forall b :: b in blocks && a < b < next ==> blocks[b].free
    ensures VisitedBelow(blocks, low, high, visited, next)
  {
    hide Ascending;
    assert Linked(blocks, n, a);
    forall x: nat ensures SlotBelow(blocks, x, next) <==> SlotBelow(blocks, x, a) || a < x <= a + blocks[a].slots {
      if b :| b in blocks && b < next && b < x <= b + blocks[b].slots {
        assert Linked(blocks, n, b);
        assert b < a || b == a;
      }
    }
  }

  lemma ScanEnd(blocks: map<nat, Block>, n: nat, low: nat, high: nat, visited: seq<nat>, a: nat)
    requires Tiles(blocks, n) && VisitedBelow(blocks, low, high, visited, a)
    requires forall b :: b in blocks && a <= b ==> high <= b
    ensures Ascending(visited) && forall x :: x in visited <==> low <= x < high && IsSlot(blocks, x)
  {
    hide Ascending;
    forall x | low <= x < high ensures SlotBelow(blocks, x, a) <==> IsSlot(blocks, x) {
    }
  }

  // visit_card: every slot on the card is visited once, in order, and nothing else. `start` is where the last
  // scan stopped, or the end if this is the first; the map is consulted only if that is too far back.
  method VisitCard(starts: StartMap, blocks: map<nat, Block>, n: nat, card: nat, start: nat)
    returns (ok: bool, visited: seq<nat>, last: nat)
    requires Tiles(blocks, n) && MapOk(starts.offsets[..], Starts(blocks))
    requires card < starts.offsets.Length && n == CardCells * starts.offsets.Length
    requires start == n || (start in blocks && Clear(blocks, start, card * CardCells))
    ensures ok <==> card == 0 || Reaches(blocks, n, start, card * CardCells) || StartsBefore(blocks, card)
    ensures ok ==> Ascending(visited)
    ensures ok ==> forall x :: x in visited <==> card * CardCells <= x < (card + 1) * CardCells && IsSlot(blocks, x)
    ensures ok ==> last == n || (last in blocks && Clear(blocks, last, (card + 1) * CardCells))
    ensures ok && last == n ==> forall b :: b in Starts(blocks) ==> b + blocks[b].size <= (card + 1) * CardCells
    ensures ok ==> StopsAt(blocks, n, card, start, last)
  {
    hide Ascending, MapOk, IsSlot, Tiles, Starts, Clear;
    var from;
    ok, from := ScanFrom(starts, blocks, n, card, start);
    if !ok {
      return false, [], n;
    }
    visited, last := ScanCard(blocks, n, card * CardCells, (card + 1) * CardCells, from);
    Stopped(blocks, n, card, start, from, last);
  }

  // Some object starts in an earlier card.
  ghost predicate StartsBefore(blocks: map<nat, Block>, card: nat) {
    exists b :: b in Starts(blocks) && b / CardCells < card
  }

  // There is a block here, and it ends no earlier than `at`.
  ghost predicate Reaches(blocks: map<nat, Block>, n: nat, a: nat, at: nat) {
    a != n && a in blocks && a + blocks[a].size >= at
  }

  // A scan that stays on one block stops there; otherwise it stops at an object or runs off the end.
  ghost predicate StopsAt(blocks: map<nat, Block>, n: nat, card: nat, start: nat, last: nat) {
    var high := (card + 1) * CardCells;
    && (Reaches(blocks, n, start, high) ==> last == start)
    && (card == 0 && start == n && Reaches(blocks, n, 0, high) ==> last == 0)
    && (last != n && last in blocks && blocks[last].free ==>
          Reaches(blocks, n, last, high) && (last == start || (card == 0 && last == 0)))
  }

  lemma Stopped(blocks: map<nat, Block>, n: nat, card: nat, start: nat, from: nat, last: nat)
    requires from in blocks && from < n && (last == n || last in blocks)
    requires Reaches(blocks, n, start, card * CardCells) ==> from == start
    requires !Reaches(blocks, n, start, card * CardCells) ==> if card == 0 then from == 0 else !blocks[from].free
    requires from + blocks[from].size >= (card + 1) * CardCells ==> last == from
    requires last != n ==> !blocks[last].free || (last == from && from + blocks[from].size >= (card + 1) * CardCells)
    ensures StopsAt(blocks, n, card, start, last)
  {}

  // Where to start scanning a card
  method ScanFrom(starts: StartMap, blocks: map<nat, Block>, n: nat, card: nat, start: nat) returns (ok: bool, a: nat)
    requires Tiles(blocks, n) && MapOk(starts.offsets[..], Starts(blocks))
    requires card < starts.offsets.Length && n == CardCells * starts.offsets.Length
    requires start == n || (start in blocks && Clear(blocks, start, card * CardCells))
    ensures ok <==> card == 0 || Reaches(blocks, n, start, card * CardCells) || StartsBefore(blocks, card)
    ensures ok ==> a in blocks && a < n && Clear(blocks, a, card * CardCells)
    ensures Reaches(blocks, n, start, card * CardCells) ==> a == start
    ensures ok && !Reaches(blocks, n, start, card * CardCells) ==> if card == 0 then a == 0 else !blocks[a].free
  {
    hide MapOk;
    if start != n && start + blocks[start].size >= card * CardCells {
      BlockEnd(blocks, n, start);
      return true, start;
    }
    ok, a := starts.FindObject(card, Starts(blocks));
    if ok {
      FoundClear(blocks, n, a, card * CardCells);
    }
  }

  // Visit the slots in [low, high) from object a on
  method ScanCard(blocks: map<nat, Block>, n: nat, low: nat, high: nat, a: nat) returns (visited: seq<nat>, last: nat)
    requires Tiles(blocks, n) && a in blocks && Clear(blocks, a, low) && low <= high <= n
    ensures Ascending(visited) && forall x :: x in visited <==> low <= x < high && IsSlot(blocks, x)
    ensures last == n || (last in blocks && Clear(blocks, last, high))
    ensures last == n ==> forall b :: b in Starts(blocks) ==> b + blocks[b].size <= high
    ensures a + blocks[a].size >= high ==> last == a
    ensures last != n ==> !blocks[last].free || (last == a && a + blocks[a].size >= high)
  {
    hide Ascending, IsSlot, VisitedBelow, Tiles, Starts, Clear;
    last, visited := a, [];
    ScanStart(blocks, n, low, high, a);
    ClearMono(blocks, n, a, low, high);
    while last < high
      invariant last <= n && (last < n ==> last in blocks) && Clear(blocks, last, high)
      invariant VisitedBelow(blocks, low, high, visited, last)
      invariant last == a || (a + blocks[a].size < high && (last < n ==> !blocks[last].free))
      decreases n - last
    {
      ghost var before := visited;
      ScanSorted(blocks, low, high, visited, last);
      visited := VisitPartial(blocks, last, low, high, visited);
      var end := last + blocks[last].size;
      BlockEnd(blocks, n, last);
      if end >= high {
        ScanStep(blocks, n, low, high, before, last, visited, end);
        ScanEnd(blocks, n, low, high, visited, end);
        return;
      }
      var next := NextObjectAfter(blocks, n, last);
      ScanStep(blocks, n, low, high, before, last, visited, next);
      ClearStep(blocks, n, last, next, high);
      last := next;
    }
    ScanEnd(blocks, n, low, high, visited, last);
    ClearAll(blocks, n, last, high);
  }

  lemma BlockEnd(blocks: map<nat, Block>, n: nat, a: nat)
    requires Tiles(blocks, n) && a in blocks
    ensures a < a + blocks[a].size <= n && forall b :: b in blocks && a < b ==> a + blocks[a].size <= b
  {
    assert Linked(blocks, n, a);
  }

  lemma ClearMono(blocks: map<nat, Block>, n: nat, a: nat, low: nat, high: nat)
    requires Tiles(blocks, n) && a in blocks && Clear(blocks, a, low) && low <= high
    ensures Clear(blocks, a, high) && a <= n
  {
    assert Linked(blocks, n, a);
  }

  lemma ClearStep(blocks: map<nat, Block>, n: nat, a: nat, next: nat, high: nat)
    requires Tiles(blocks, n) && a in blocks && Clear(blocks, a, high) && a + blocks[a].size < high
    requires forall b :: b in blocks && a < b < next ==> blocks[b].free
    ensures Clear(blocks, next, high)
  {}

  lemma ClearAll(blocks: map<nat, Block>, n: nat, a: nat, high: nat)
    requires Tiles(blocks, n) && Clear(blocks, a, high) && a <= n
    ensures a == n ==> forall b :: b in Starts(blocks) ==> b + blocks[b].size <= high
  {
    forall b | b in Starts(blocks) ensures b < n {
      assert Linked(blocks, n, b);
    }
  }

  lemma ScanSorted(blocks: map<nat, Block>, low: nat, high: nat, visited: seq<nat>, a: nat)
    requires VisitedBelow(blocks, low, high, visited, a)
    ensures Ascending(visited) && forall x :: x in visited ==> x <= a
  {}

  lemma FoundClear(blocks: map<nat, Block>, n: nat, a: nat, low: nat)
    requires Tiles(blocks, n) && a <= low < n && (a == 0 || a in Starts(blocks))
    ensures a in blocks && Clear(blocks, a, low)
  {}

  // ----- all marked cards of a generation

  ghost predicate MarkedSlot(blocks: map<nat, Block>, marks: seq<bool>, x: nat) {
    x / CardCells < |marks| && marks[x / CardCells] && IsSlot(blocks, x)
  }

  ghost predicate VisitedCards(blocks: map<nat, Block>, marks: seq<bool>, visited: seq<nat>, card: nat) {
    Ascending(visited) && forall x: nat :: x in visited <==> x < card * CardCells && MarkedSlot(blocks, marks, x)
  }

  lemma CardsStep(blocks: map<nat, Block>, marks: seq<bool>, visited: seq<nat>, card: nat, more: seq<nat>)
    requires VisitedCards(blocks, marks, visited, card) && card < |marks| && Ascending(more)
    requires forall x :: x in more <==>
      marks[card] && card * CardCells <= x < (card + 1) * CardCells && IsSlot(blocks, x)
    ensures VisitedCards(blocks, marks, visited + more, card + 1)
  {
    hide IsSlot;
    assert forall i :: 0 <= i < |visited| ==> visited[i] in visited;
    assert forall i :: 0 <= i < |more| ==> more[i] in more;
    forall x: nat | card * CardCells <= x < (card + 1) * CardCells ensures x / CardCells == card {
    }
  }

  // When no object reaches beyond the card, the remaining cards hold no slots.
  lemma CardsEnd(blocks: map<nat, Block>, n: nat, marks: seq<bool>, visited: seq<nat>, card: nat)
    requires Tiles(blocks, n) && VisitedCards(blocks, marks, visited, card) && card <= |marks|
    requires forall b :: b in Starts(blocks) ==> b + blocks[b].size <= card * CardCells
    ensures VisitedCards(blocks, marks, visited, |marks|)
  {
    hide Ascending;
    forall x: nat | MarkedSlot(blocks, marks, x) ensures x < card * CardCells {
      var a :| a in blocks && a < x <= a + blocks[a].slots;
      assert Linked(blocks, n, a);
      assert a in Starts(blocks);
    }
  }

  // No card before this one is marked.
  ghost predicate Idle(marks: seq<bool>, card: nat) { forall d :: 0 <= d < card && d < |marks| ==> !marks[d] }

  // The first card is marked, and a free block at the start of the generation spans all marked cards so far.
  ghost predicate Held(blocks: map<nat, Block>, marks: seq<bool>, card: nat) {
    && 0 < card && 0 < |marks| && marks[0] && 0 in blocks && blocks[0].free
    && forall d :: 0 <= d < card && d < |marks| && marks[d] ==> (d + 1) * CardCells <= blocks[0].size
  }

  // A marked card from which the walk back finds nothing: no object starts before it, and either the scan begins
  // here or it is still at a free block at the start of the generation that ends before the card.
  ghost predicate Stuck(blocks: map<nat, Block>, marks: seq<bool>, card: nat) {
    && 0 < card < |marks| && marks[card] && !StartsBefore(blocks, card)
    && (Idle(marks, card) || (Held(blocks, marks, card) && blocks[0].size < card * CardCells))
  }

  // Where the scan is when it comes to a card
  ghost predicate Stage(blocks: map<nat, Block>, n: nat, marks: seq<bool>, card: nat, start: nat) {
    if Idle(marks, card) then start == n
    else if Held(blocks, marks, card) then start == 0
    else start in blocks && !blocks[start].free
  }

  lemma FailsExactly(blocks: map<nat, Block>, n: nat, marks: seq<bool>, card: nat, start: nat)
    requires Stage(blocks, n, marks, card, start) && card < |marks| && marks[card] && card * CardCells < n
    requires Tiles(blocks, n)
    ensures Stuck(blocks, marks, card) <==>
      card != 0 && !Reaches(blocks, n, start, card * CardCells) && !StartsBefore(blocks, card)
  {
    hide Tiles, Idle;
    if start in blocks && !blocks[start].free && start + blocks[start].size < card * CardCells {
      assert start in Starts(blocks) && start / CardCells < card;
    }
    if start in blocks {
      BlockEnd(blocks, n, start);
    }
  }

  lemma StageMarked(blocks: map<nat, Block>, n: nat, marks: seq<bool>, card: nat, start: nat, last: nat)
    requires Stage(blocks, n, marks, card, start) && card < |marks| && marks[card] && card * CardCells < n
    requires StopsAt(blocks, n, card, start, last) && (last == n || last in blocks)
    ensures last != n ==> Stage(blocks, n, marks, card + 1, last)
    ensures last == n ==> !Held(blocks, marks, card + 1)
  {
    if Held(blocks, marks, card + 1) {
      assert card > 0 ==> Held(blocks, marks, card) && !Idle(marks, card);
    }
  }

  lemma StageUnmarked(blocks: map<nat, Block>, n: nat, marks: seq<bool>, card: nat, start: nat)
    requires Stage(blocks, n, marks, card, start) && card < |marks| && !marks[card]
    ensures Stage(blocks, n, marks, card + 1, start)
  {
    assert Idle(marks, card + 1) <==> Idle(marks, card);
    assert Held(blocks, marks, card + 1) <==> Held(blocks, marks, card);
  }

  lemma HeldEarlier(blocks: map<nat, Block>, marks: seq<bool>, card: nat, e: nat)
    requires card < e
    ensures Held(blocks, marks, e) ==> Held(blocks, marks, card + 1)
  {}

  // When the scan has run off the end it meets no further stuck card.
  lemma NoneStuckAfter(blocks: map<nat, Block>, marks: seq<bool>, card: nat)
    requires card < |marks| && marks[card] && !Held(blocks, marks, card + 1)
    ensures forall e :: e > card ==> !Stuck(blocks, marks, e)
  {
    forall e: nat | e > card ensures !Stuck(blocks, marks, e) {
      HeldEarlier(blocks, marks, card, e);
      assert e < |marks| ==> !Idle(marks, e);
    }
  }

  // visit_cards: the slots visited are exactly those of the generation that lie on marked cards, each once.
  // It fails exactly if some marked card is stuck, so never if an object starts in the first card.
  method VisitCards(starts: StartMap, blocks: map<nat, Block>, n: nat, marks: seq<bool>)
    returns (ok: bool, visited: seq<nat>)
    requires Tiles(blocks, n) && MapOk(starts.offsets[..], Starts(blocks))
    requires n == CardCells * starts.offsets.Length && |marks| == starts.offsets.Length
    ensures !ok <==> exists e :: Stuck(blocks, marks, e)
    ensures StartsBefore(blocks, 1) ==> ok
    ensures ok ==> Ascending(visited) && forall x: nat :: x in visited <==> MarkedSlot(blocks, marks, x)
  {
    hide Ascending, MapOk, IsSlot, Tiles, Starts, Clear, StartsBefore, Stuck, Stage, StopsAt, Idle, Held, Reaches;
    ok, visited := true, [];
    CardsStart(blocks, marks);
    var start, card := n, 0;
    StageStart(blocks, n, marks);
    while card < |marks|
      invariant 0 <= card <= |marks| && ok && VisitedCards(blocks, marks, visited, card)
      invariant start == n || (start in blocks && Clear(blocks, start, card * CardCells))
      invariant Stage(blocks, n, marks, card, start) && forall e: nat :: e < card ==> !Stuck(blocks, marks, e)
    {
      if marks[card] {
        var more, last;
        FailsExactly(blocks, n, marks, card, start);
        ok, more, last := VisitCard(starts, blocks, n, card, start);
        if !ok {
          StuckEarly(blocks, marks, card);
          return;
        }
        CardsStep(blocks, marks, visited, card, more);
        visited := visited + more;
        StageMarked(blocks, n, marks, card, start, last);
        start := last;
        if start == n {
          CardsEnd(blocks, n, marks, visited, card + 1);
          CardsDone(blocks, marks, visited);
          NoneStuckAfter(blocks, marks, card);
          assert forall e: nat :: !Stuck(blocks, marks, e);
          return;
        }
      } else {
        CardsStep(blocks, marks, visited, card, []);
        assert visited + [] == visited;
        ClearFurther(blocks, start, card * CardCells, (card + 1) * CardCells);
        StageUnmarked(blocks, n, marks, card, start);
        StuckMarked(blocks, marks, card);
      }
      card := card + 1;
    }
    CardsDone(blocks, marks, visited);
    forall e: nat ensures !Stuck(blocks, marks, e) {
      StuckMarked(blocks, marks, e);
    }
  }

  lemma StageStart(blocks: map<nat, Block>, n: nat, marks: seq<bool>)
    ensures Stage(blocks, n, marks, 0, n)
  {}

  lemma StuckMarked(blocks: map<nat, Block>, marks: seq<bool>, e: nat)
    ensures Stuck(blocks, marks, e) ==> e < |marks| && marks[e]
  {}

  lemma StuckEarly(blocks: map<nat, Block>, marks: seq<bool>, e: nat)
    requires Stuck(blocks, marks, e)
    ensures !StartsBefore(blocks, 1)
  {}

  lemma CardsStart(blocks: map<nat, Block>, marks: seq<bool>)
    ensures VisitedCards(blocks, marks, [], 0) && Ascending([])
  {}

  lemma CardsDone(blocks: map<nat, Block>, marks: seq<bool>, visited: seq<nat>)
    requires VisitedCards(blocks, marks, visited, |marks|)
    ensures Ascending(visited) && forall x: nat :: x in visited <==> MarkedSlot(blocks, marks, x)
  {
    hide Ascending, IsSlot;
  }

  lemma ClearFurther(blocks: map<nat, Block>, a: nat, low: nat, high: nat)
    requires low <= high
    ensures Clear(blocks, a, low) ==> Clear(blocks, a, high)
  {}

  // After a sweep that frees the start of the generation a marked card may be out of reach: the walk back from a
  // card finds no entry. An object in the second card behind a free first card is such a heap.
  lemma WalkBackFails()
    ensures var blocks := map[0 := Block(CardCells, 0, true), CardCells := Block(CardCells, 1, false)];
            && Tiles(blocks, 2 * CardCells) && MapOk([Inside, 0], Starts(blocks))
            && IsSlot(blocks, CardCells + 1) && Stuck(blocks, [false, true], 1)
  {
    var blocks := map[0 := Block(CardCells, 0, true), CardCells := Block(CardCells, 1, false)];
    assert CardCells in blocks && CardCells < CardCells + 1 <= CardCells + blocks[CardCells].slots;
    assert StartIn(1, 0) == CardCells && StartIn(1, 0) in Starts(blocks);
  }
}
