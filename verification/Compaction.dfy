/** Sliding compaction of the tenured space (vm/compaction.cpp, vm/free_list.hpp, vm/slot_visitor.hpp). */
module Compaction {
  import opened Layouts
  import opened MarkBits
  import opened Tiling
  import ObjectStarts

  // ----- the heap before compaction

  // The size cell of a tuple's layout, which is an array with a special third element
  function LayoutSize(m: seq<Cell>, a: nat): Cell
    requires a + 1 < |m|
  {
    if Type(m[a]) == TupleType && Address(m[a + 1]) + 3 < |m| then m[Address(m[a + 1]) + 3] else 0
  }

  function SizeIn(m: seq<Cell>, a: nat): nat
    requires a + 1 < |m| && KnownType(m[a])
  {
    ObjectSize(m[a], m[a + 1], LayoutSize(m, a))
  }

  function SlotsIn(m: seq<Cell>, a: nat): nat
    requires a + 1 < |m| && KnownType(m[a])
  {
    SlotCount(m[a], m[a + 1], LayoutSize(m, a))
  }

  // Cell i of the object at a is a field or an element that holds a value; these are the cells the collector scans.
  ghost predicate ValueAt(m: seq<Cell>, a: nat, i: nat): (holds: bool)
    requires a + 1 < |m| && KnownType(m[a])
    ensures holds <==> 1 <= i <= SlotsIn(m, a)
  {
    ScannedCells(m[a], m[a + 1], LayoutSize(m, a), i);
    HoldsValue(m[a], m[a + 1], LayoutSize(m, a), i)
  }

  ghost predicate LayoutAt(m: seq<Cell>, l: nat) {
    l + 3 < |m| && !FreeP(m[l]) && Type(m[l]) == ArrayType && UntagFixnum(m[l + 1]) >= 3 && Immediate(m[l + 3])
  }

  // The frames of a callstack object hold pointers its slots do not show, so it is left out.
  ghost predicate ObjectAt(m: seq<Cell>, live: set<nat>, a: nat) {
    && a % 2 == 0 && a + 1 < |m| && !FreeP(m[a]) && KnownType(m[a]) && Type(m[a]) != CallstackType
    && a + SizeIn(m, a) <= |m|
    && (Type(m[a]) == TupleType ==> !Immediate(m[a + 1]) && LayoutAt(m, Address(m[a + 1])))
    && (Type(m[a]) == ArrayType || Type(m[a]) == StringType ==> Immediate(m[a + 1]))
    && forall i :: 0 < i < SizeIn(m, a) && ValueAt(m, a, i) && !Immediate(m[a + i]) ==> Address(m[a + i]) in live
  }

  // Every live object is whole, refers only to live objects, and overlaps no other.
  ghost predicate Objects(m: seq<Cell>, live: set<nat>) {
    && (forall a :: a in live ==> ObjectAt(m, live, a))
    && (forall a, b :: a in live && b in live && a < b ==> a + SizeIn(m, a) <= b)
  }

  ghost predicate Inside(m: seq<Cell>, a: nat, line: nat)
    requires a + 1 < |m| && KnownType(m[a])
  {
    a / 2 <= line < (a + SizeIn(m, a)) / 2
  }

  // The marked lines are exactly the lines of the live objects.
  ghost predicate MarksMatch(m: seq<Cell>, live: set<nat>, bits: seq<Word>)
    requires Objects(m, live)
  {
    && |m| == LineSize * WordBits * |bits|
    && (forall a, line :: a in live && Inside(m, a, line) ==> Marked(bits, line))
    && (forall line :: 0 <= line < WordBits * |bits| && Marked(bits, line) ==>
          exists a :: a in live && Inside(m, a, line))
  }

  ghost predicate Heap(m: seq<Cell>, live: set<nat>, bits: seq<Word>) {
    Objects(m, live) && MarksMatch(m, live, bits)
  }

  // ----- forwarding

  ghost function Forward(bits: seq<Word>, a: nat): (r: nat)
    requires a / LineSize <= WordBits * |bits|
    ensures r % 2 == 0 && r <= a
  {
    LineSize * Rank(bits, a / LineSize)
  }

  // A slot after forwarding: immediates stay, pointers are redirected and keep their tag.
  ghost function ForwardCell(bits: seq<Word>, c: Cell): Cell {
    if Immediate(c) || Address(c) / LineSize > WordBits * |bits| then c else Retag(Forward(bits, Address(c)), Tag(c))
  }

  // The contents of cell a + i of a moved object
  ghost function MovedCell(m: seq<Cell>, bits: seq<Word>, a: nat, i: nat): Cell
    requires a + 1 < |m| && KnownType(m[a]) && a + i < |m|
  {
    if ValueAt(m, a, i) then ForwardCell(bits, m[a + i]) else m[a + i]
  }

  // Object a of m stands, forwarded, at its destination in n.
  ghost predicate Moved(m: seq<Cell>, bits: seq<Word>, n: seq<Cell>, a: nat) {
    && a + 1 < |m| && KnownType(m[a]) && a + SizeIn(m, a) <= |m| == |n|
    && a / LineSize <= WordBits * |bits|
    && forall i :: Forward(bits, a) <= i < Forward(bits, a) + SizeIn(m, a) ==>
         n[i] == MovedCell(m, bits, a, i - Forward(bits, a))
  }

  // The destination of an object ends at the rank of its end.
  lemma ForwardEnd(m: seq<Cell>, live: set<nat>, bits: seq<Word>, a: nat)
    requires Heap(m, live, bits) && a in live
    ensures (a + SizeIn(m, a)) / LineSize <= WordBits * |bits|
    ensures Forward(bits, a + SizeIn(m, a)) == Forward(bits, a) + SizeIn(m, a)
  {
    hide Marked, Rank, Objects, ObjectAt, SizeIn;
    ObjectSizeEven(m, live, a);
    var from, to := a / 2, (a + SizeIn(m, a)) / 2;
    EvenSum(a, SizeIn(m, a));
    forall l | from <= l < to ensures Marked(bits, l) {
      assert Inside(m, a, l);
    }
    RankAllMarked(bits, from, to);
  }

  lemma EvenSum(a: nat, size: nat)
    requires a % 2 == 0 && size % 2 == 0
    ensures (a + size) / 2 == a / 2 + size / 2 && 2 * (size / 2) == size
  {}

  lemma ObjectSizeEven(m: seq<Cell>, live: set<nat>, a: nat)
    requires Objects(m, live) && a in live
    ensures ObjectAt(m, live, a) && a + 1 < |m| && KnownType(m[a]) && a % 2 == 0
    ensures SizeIn(m, a) % 2 == 0 && 2 <= SizeIn(m, a) <= |m| - a
  {
    assert ObjectAt(m, live, a);
  }

  // Destinations keep the order of the objects and never overlap.
  lemma ForwardOrder(m: seq<Cell>, live: set<nat>, bits: seq<Word>, a: nat, b: nat)
    requires Heap(m, live, bits) && a in live && a + SizeIn(m, a) <= b <= |m|
    ensures Forward(bits, a) + SizeIn(m, a) <= Forward(bits, b)
  {
    ForwardEnd(m, live, bits, a);
    RankMono(bits, (a + SizeIn(m, a)) / 2, b / 2);
  }

  // ----- the sweep over the space

  // Everything below scan has been moved, everything from dest on is untouched.
  ghost predicate Progress(m: seq<Cell>, live: set<nat>, bits: seq<Word>, n: seq<Cell>, scan: nat, dest: nat,
                           finger: nat)
    requires Heap(m, live, bits)
  {
    && |n| == |m| && scan <= |m| && scan % 2 == 0 && dest == Forward(bits, scan) && finger <= scan
    && (forall a :: a in live && a < scan ==> a < finger && a + SizeIn(m, a) <= scan && Moved(m, bits, n, a))
    && (forall k :: dest <= k < |n| ==> n[k] == m[k])
  }

  lemma ProgressStart(m: seq<Cell>, live: set<nat>, bits: seq<Word>)
    requires Heap(m, live, bits)
    ensures Progress(m, live, bits, m, 0, 0, 0)
  {}

  lemma ProgressEnd(m: seq<Cell>, live: set<nat>, bits: seq<Word>, n: seq<Cell>, dest: nat, finger: nat)
    requires Heap(m, live, bits) && Progress(m, live, bits, n, |m|, dest, finger)
    ensures dest == Forward(bits, |m|)
    ensures forall a :: a in live ==> Moved(m, bits, n, a)
  {
    hide Marked, Rank;
    forall a | a in live ensures Moved(m, bits, n, a) {
      ObjectSizeEven(m, live, a);
    }
  }

  // A marked block met by the sweep is the start of a live object.
  lemma MarkedIsObject(m: seq<Cell>, live: set<nat>, bits: seq<Word>, n: seq<Cell>, scan: nat, dest: nat, finger: nat)
    requires Heap(m, live, bits) && Progress(m, live, bits, n, scan, dest, finger)
    requires scan < |m| && Marked(bits, scan / LineSize)
    ensures scan in live && ObjectAt(m, live, scan) && n[scan] == m[scan] && n[scan + 1] == m[scan + 1]
    ensures KnownType(n[scan]) && !FreeP(n[scan])
  {
    hide Marked, Rank;
    var a :| a in live && Inside(m, a, scan / LineSize);
    ObjectSizeEven(m, live, a);
  }

  // A whole object of m, as it stood, in n
  ghost predicate Untouched(m: seq<Cell>, n: seq<Cell>, a: nat) {
    && a + 1 < |m| && KnownType(m[a]) && a + SizeIn(m, a) <= |m| == |n|
    && forall i :: a <= i < a + SizeIn(m, a) ==> n[i] == m[i]
  }

  // The finger tells the objects that have moved from those that have not: the former stand forwarded at their
  // destinations, the latter where they were.
  lemma FingerSplits(
    m: seq<Cell>, live: set<nat>, bits: seq<Word>, n: seq<Cell>, scan: nat, dest: nat, finger: nat, l: nat)
    requires Heap(m, live, bits) && Progress(m, live, bits, n, scan, dest, finger) && l in live
    ensures l < finger ==> Moved(m, bits, n, l)
    ensures l >= finger ==> l >= scan && Untouched(m, n, l)
  {
    hide Marked, Rank, ObjectAt, Moved;
    ObjectSizeEven(m, live, l);
  }

  // The layout of a tuple can be read through translate_data whether or not it has moved.
  lemma LayoutReadable(
    m: seq<Cell>, live: set<nat>, bits: seq<Word>, n: seq<Cell>, scan: nat, dest: nat, finger: nat, l: nat)
    requires Heap(m, live, bits) && Progress(m, live, bits, n, scan, dest, finger)
    requires l in live && LayoutAt(m, l)
    ensures l < finger ==> Forward(bits, l) + 3 < dest && n[Forward(bits, l) + 3] == m[l + 3]
    ensures l >= finger ==> l >= scan && n[l + 3] == m[l + 3]
  {
    hide Marked, Rank, ObjectAt, Objects, LayoutSize;
    FingerSplits(m, live, bits, n, scan, dest, finger, l);
    if l < finger {
      ForwardOrder(m, live, bits, l, scan);
      var k := Forward(bits, l) + 3;
      assert n[k] == MovedCell(m, bits, l, k - Forward(bits, l));
    }
  }

  // One object moved and forwarded
  ghost predicate BlockMoved(m: seq<Cell>, bits: seq<Word>, n: seq<Cell>, after: seq<Cell>, scan: nat, dest: nat,
                             size: nat)
    requires scan + 1 < |m| && KnownType(m[scan]) && scan + size <= |m|
  {
    && |after| == |n| && dest + size <= |n|
    && (forall i :: dest <= i < dest + size ==> after[i] == MovedCell(m, bits, scan, i - dest))
    && (forall i :: 0 <= i < dest || dest + size <= i < |n| ==> after[i] == n[i])
  }

  // Objects already moved are below the block being written.
  lemma StaysMoved(m: seq<Cell>, live: set<nat>, bits: seq<Word>, n: seq<Cell>, after: seq<Cell>, scan: nat, dest: nat,
                   a: nat)
    requires Heap(m, live, bits) && a in live && a + SizeIn(m, a) <= scan <= |m| && dest == Forward(bits, scan)
    requires Moved(m, bits, n, a)
    requires |after| == |n| && forall i :: 0 <= i < dest ==> i < |n| && after[i] == n[i]
    ensures Moved(m, bits, after, a)
  {
    hide Marked, Rank, Objects, MarksMatch, MovedCell, SizeIn, Forward;
    ForwardOrder(m, live, bits, a, scan);
  }

  lemma BlockStep(m: seq<Cell>, live: set<nat>, bits: seq<Word>, n: seq<Cell>, after: seq<Cell>, scan: nat, dest: nat,
                  finger: nat)
    requires Heap(m, live, bits) && Progress(m, live, bits, n, scan, dest, finger)
    requires scan in live && ObjectAt(m, live, scan) && BlockMoved(m, bits, n, after, scan, dest, SizeIn(m, scan))
    ensures Progress(m, live, bits, after, scan + SizeIn(m, scan), dest + SizeIn(m, scan), scan + SizeIn(m, scan))
  {
    hide Marked, Rank, ObjectAt, MarksMatch, MovedCell, SizeIn;
    ObjectSizeEven(m, live, scan);
    ForwardEnd(m, live, bits, scan);
    var size := SizeIn(m, scan);
    forall a | a in live && a < scan + size
      ensures a + SizeIn(m, a) <= scan + size && Moved(m, bits, after, a)
    {
      ObjectSizeEven(m, live, a);
      if a < scan {
        StaysMoved(m, live, bits, n, after, scan, dest, a);
      } else {
        assert a == scan;
      }
    }
  }

  // No line from one address to another is marked.
  ghost predicate Gap(bits: seq<Word>, from: nat, to: nat) {
    && to / LineSize <= WordBits * |bits|
    && forall l :: from / LineSize <= l < to / LineSize ==> !Marked(bits, l)
  }

  lemma GapStep(m: seq<Cell>, live: set<nat>, bits: seq<Word>, n: seq<Cell>, scan: nat, dest: nat, finger: nat,
                next: nat)
    requires Heap(m, live, bits) && Progress(m, live, bits, n, scan, dest, finger)
    requires scan <= next <= |m| && next % 2 == 0
    requires Gap(bits, scan, next)
    ensures Progress(m, live, bits, n, next, dest, finger)
  {
    hide Marked, Rank;
    RankNoneMarked(bits, scan / 2, next / 2);
    forall a | a in live && a < next ensures a < scan {
      ObjectSizeEven(m, live, a);
      assert Inside(m, a, a / 2);
    }
  }

  // translate_data: objects below the finger have moved
  function Translate(state: Bitmap, a: nat, finger: nat): nat
    requires a < state.Size() && state.Forwarding()
    reads state.marked, state.forwarding
  {
    if a < finger then state.ForwardBlock(a) else a
  }

  lemma TranslateIs(state: Bitmap, a: nat, finger: nat)
    requires a < state.Size() && a % LineSize == 0 && state.Forwarding()
    ensures Translate(state, a, finger) == if a < finger then Forward(state.marked[..], a) else a
  {
    hide Rank, Marked, Bitmap.ForwardBlock;
    ForwardEven(state, a);
  }

  // Cell i of the object that was at l, whether it still holds what it held or has been forwarded
  ghost predicate Readable(m: seq<Cell>, bits: seq<Word>, n: seq<Cell>, l: nat, at: nat, moved: bool) {
    && l + 1 < |m| && KnownType(m[l]) && l + SizeIn(m, l) <= |m| && at + SizeIn(m, l) <= |n|
    && forall i :: at <= i < at + SizeIn(m, l) ==>
         n[i] == if moved then MovedCell(m, bits, l, i - at) else m[l + (i - at)]
  }

  // translate_data finds every live object at every step of the sweep: forwarded if it lies below the finger, as it
  // was otherwise.
  lemma TranslateFinds(
    state: Bitmap, m: seq<Cell>, live: set<nat>, n: seq<Cell>, scan: nat, dest: nat, finger: nat, l: nat)
    requires state.Forwarding() && |m| == state.Size() && Heap(m, live, state.marked[..])
    requires Progress(m, live, state.marked[..], n, scan, dest, finger) && l in live
    ensures l < state.Size() && Readable(m, state.marked[..], n, l, Translate(state, l, finger), l < finger)
  {
    hide Rank, Marked, Translate, MovedCell, LayoutSize;
    ObjectSizeEven(m, live, l);
    FingerSplits(m, live, state.marked[..], n, scan, dest, finger, l);
    TranslateIs(state, l, finger);
    ForwardEnd(m, live, state.marked[..], l);
    RankMono(state.marked[..], l / LineSize, (l + SizeIn(m, l)) / LineSize);
  }

  // So it does after the object at scan has been copied, with the finger past it, for every other object; the one
  // copied stands, not yet forwarded, at its destination, which is where translate_data looks for it.
  lemma TranslateFindsAfterSlide(
    state: Bitmap, m: seq<Cell>, live: set<nat>, n: seq<Cell>, after: seq<Cell>,
    scan: nat, dest: nat, finger: nat, l: nat)
    requires state.Forwarding() && |m| == state.Size() && Heap(m, live, state.marked[..])
    requires Progress(m, live, state.marked[..], n, scan, dest, finger) && l in live
    requires scan in live && ObjectAt(m, live, scan) && Slid(n, after, scan, dest, SizeIn(m, scan))
    ensures var finger' := scan + SizeIn(m, scan);
            l < state.Size() && Readable(m, state.marked[..], after, l, Translate(state, l, finger'), l < scan)
  {
    hide Rank, Marked, Translate, MovedCell, LayoutSize, Forward;
    ghost var bits := state.marked[..];
    ObjectSizeEven(m, live, l);
    ObjectSizeEven(m, live, scan);
    TranslateIs(state, l, scan + SizeIn(m, scan));
    ForwardEnd(m, live, bits, scan);
    if l < scan {
      ForwardOrder(m, live, bits, l, scan);
      assert Moved(m, bits, n, l);
    } else if l > scan {
      assert l >= scan + SizeIn(m, scan);
    }
  }

  ghost predicate LayoutReady(m: seq<Cell>, bits: seq<Word>, n: seq<Cell>, a: nat, at: nat, finger: nat)
    requires a + 1 < |m|
  {
    && at + 1 < |n| && n[at] == m[a] && n[at + 1] == m[a + 1]
    && (Type(m[a]) == TupleType ==>
          var l := Address(m[a + 1]);
          && l < |m| == |n| == LineSize * WordBits * |bits|
          && var t := if l < finger then Forward(bits, l) else l;
             t + 3 < |n| && n[t + 3] == LayoutSize(m, a))
  }

  // The layout's size cell of the object now at `at`, found through the fixup
  method LayoutCell(mem: array<Cell>, state: Bitmap, at: nat, finger: nat, ghost m: seq<Cell>, ghost a: nat)
    returns (c: Cell)
    requires state.Forwarding() && mem.Length == state.Size()
    requires a + 1 < |m| && LayoutReady(m, state.marked[..], mem[..], a, at, finger)
    ensures c == LayoutSize(m, a)
  {
    hide Rank, Marked;
    if Type(mem[at]) == TupleType {
      var l := Translate(state, Address(mem[at + 1]), finger);
      return mem[l + 3];
    } else {
      return 0;
    }
  }

  // memmove, towards lower addresses
  method Slide(mem: array<Cell>, from: nat, to: nat, count: nat)
    requires to + count <= mem.Length && from + count <= mem.Length
    modifies mem
    ensures forall i :: to <= i < to + count ==> mem[i] == old(mem[from + (i - to)])
    ensures forall i :: 0 <= i < to || to + count <= i < mem.Length ==> mem[i] == old(mem[i])
  {
    forall i | 0 <= i < count {
      mem[to + i] := mem[from + i];
    }
  }

  // visit_pointer with the compaction fixup: immediates stay, pointers keep their tag
  function FixupCell(state: Bitmap, c: Cell): Cell
    requires state.Forwarding() && (!Immediate(c) ==> Address(c) < state.Size())
    reads state.marked, state.forwarding
  {
    if Immediate(c) then c
    else
      ForwardEven(state, Address(c));
      Retag(state.ForwardBlock(Address(c)), Tag(c))
  }

  lemma ForwardEven(state: Bitmap, a: nat)
    requires state.Forwarding() && a < state.Size() && a % LineSize == 0
    ensures state.ForwardBlock(a) == Forward(state.marked[..], a) && state.ForwardBlock(a) % LineSize == 0
  {
    hide Rank, Marked, Bitmap.ForwardBlock;
  }

  lemma FixupCellIs(state: Bitmap, c: Cell)
    requires state.Forwarding() && (!Immediate(c) ==> Address(c) < state.Size())
    ensures FixupCell(state, c) == ForwardCell(state.marked[..], c)
  {
    hide Rank, Marked, Bitmap.Forwarding, Bitmap.ForwardBlock, Forward;
    if !Immediate(c) {
      ForwardEven(state, Address(c));
    }
  }

  // visit_object_array
  method VisitSlots(mem: array<Cell>, state: Bitmap, start: nat, end: nat)
    requires start <= end <= mem.Length && state.Forwarding()
    requires state.marked as object != mem as object && state.forwarding != mem
    requires forall i :: start <= i < end && !Immediate(mem[i]) ==> Address(mem[i]) < state.Size()
    modifies mem
    ensures forall i :: start <= i < end ==> mem[i] == ForwardCell(state.marked[..], old(mem[i]))
    ensures forall i :: 0 <= i < start || end <= i < mem.Length ==> mem[i] == old(mem[i])
  {
    hide Rank, Marked, ForwardCell, FixupCell, Immediate, Address, Bitmap.Forwarding;
    var slot := start;
    while slot < end
      invariant start <= slot <= end && state.Forwarding()
      invariant forall i :: start <= i < slot ==> mem[i] == ForwardCell(state.marked[..], old(mem[i]))
      invariant forall i :: 0 <= i < start || slot <= i < mem.Length ==> mem[i] == old(mem[i])
    {
      FixupCellIs(state, mem[slot]);
      mem[slot] := FixupCell(state, mem[slot]);
      slot := slot + 1;
    }
  }

  // The object's cells copied to dest
  ghost predicate Slid(n: seq<Cell>, after: seq<Cell>, scan: nat, dest: nat, size: nat) {
    && |after| == |n| && dest <= scan && scan + size <= |n|
    && (forall i :: dest <= i < dest + size ==> after[i] == n[scan + (i - dest)])
    && (forall i :: 0 <= i < dest || dest + size <= i < |n| ==> after[i] == n[i])
  }

  // Between the copy and the visit the layout is still readable, now through the advanced finger.
  lemma LayoutAfterSlide(m: seq<Cell>, live: set<nat>, bits: seq<Word>, n: seq<Cell>, after: seq<Cell>, scan: nat,
                         dest: nat, finger: nat)
    requires Heap(m, live, bits) && Progress(m, live, bits, n, scan, dest, finger)
    requires scan in live && ObjectAt(m, live, scan) && Slid(n, after, scan, dest, SizeIn(m, scan))
    ensures LayoutReady(m, bits, after, scan, dest, scan + SizeIn(m, scan))
  {
    hide Marked, Rank;
    var l, size := Address(m[scan + 1]), SizeIn(m, scan);
    ObjectSizeEven(m, live, scan);
    if Type(m[scan]) == TupleType {
      LayoutLive(m, live, scan);
      LayoutReadable(m, live, bits, n, scan, dest, finger, l);
      assert l != scan;
      ObjectSizeEven(m, live, l);
      if l > scan {
        assert l >= scan + size;
      }
    }
  }

  lemma LayoutLive(m: seq<Cell>, live: set<nat>, a: nat)
    requires ObjectAt(m, live, a) && Type(m[a]) == TupleType
    ensures Address(m[a + 1]) in live && LayoutAt(m, Address(m[a + 1])) && LayoutSize(m, a) == m[Address(m[a + 1]) + 3]
  {
    assert ValueAt(m, a, 1);
  }

  lemma LayoutAtScan(m: seq<Cell>, live: set<nat>, bits: seq<Word>, n: seq<Cell>, scan: nat, dest: nat, finger: nat)
    requires Heap(m, live, bits) && Progress(m, live, bits, n, scan, dest, finger)
    requires scan in live && ObjectAt(m, live, scan)
    ensures LayoutReady(m, bits, n, scan, scan, finger)
  {
    hide Marked, Rank;
    ObjectSizeEven(m, live, scan);
    if Type(m[scan]) == TupleType {
      LayoutLive(m, live, scan);
      LayoutReadable(m, live, bits, n, scan, dest, finger, Address(m[scan + 1]));
    }
  }

  // What the slots hold after the copy
  lemma SlidSlots(m: seq<Cell>, live: set<nat>, bits: seq<Word>, n: seq<Cell>, after: seq<Cell>, scan: nat, dest: nat,
                  finger: nat)
    requires Heap(m, live, bits) && Progress(m, live, bits, n, scan, dest, finger)
    requires scan in live && ObjectAt(m, live, scan) && Slid(n, after, scan, dest, SizeIn(m, scan))
    ensures forall i :: dest <= i < dest + SizeIn(m, scan) ==> after[i] == m[scan + (i - dest)]
    ensures forall i :: dest < i <= dest + SlotsIn(m, scan) && !Immediate(after[i]) ==> Address(after[i]) < |m|
  {
    hide Marked, Rank;
    forall i | dest < i <= dest + SlotsIn(m, scan) && !Immediate(after[i]) ensures Address(after[i]) < |m| {
      assert after[i] == n[scan + (i - dest)] == m[scan + (i - dest)];
      assert ValueAt(m, scan, i - dest);
      ObjectSizeEven(m, live, Address(m[scan + (i - dest)]));
    }
  }

  // What the compacting iteration does with one marked block
  method CompactBlock(mem: array<Cell>, state: Bitmap, scan: nat, dest: nat, size: nat, finger: nat,
                      ghost m: seq<Cell>, ghost live: set<nat>, ghost before: nat, ghost bits: seq<Word>)
    requires state.Forwarding() && mem.Length == state.Size() && bits == state.marked[..]
    requires state.marked as object != mem as object && state.forwarding != mem
    requires Heap(m, live, bits)
    requires Progress(m, live, bits, mem[..], scan, dest, before)
    requires scan in live && size == SizeIn(m, scan) && finger == scan + size
    modifies mem
    ensures ObjectAt(m, live, scan) && BlockMoved(m, bits, old(mem[..]), mem[..], scan, dest, size)
  {
    hide Rank, Marked, Bitmap.Forwarding, Objects, MarksMatch, Progress, ObjectAt, LayoutReady, LayoutSize, ForwardCell;
    hide Forward;
    ghost var n := mem[..];
    ScanEven(m, live, bits, n, scan, dest, before);
    ObjectSizeEven(m, live, scan);
    if dest != scan {
      Slide(mem, scan, dest, size);
    }
    ghost var slid := mem[..];
    assert Slid(n, slid, scan, dest, size);
    LayoutAfterSlide(m, live, bits, n, slid, scan, dest, before);
    SlidSlots(m, live, bits, n, slid, scan, dest, before);
    VisitObject(mem, state, dest, finger, m, scan);
    MovedFromSlid(m, bits, n, slid, mem[..], scan, dest);
  }

  // visit_slots on the moved object
  method VisitObject(mem: array<Cell>, state: Bitmap, at: nat, finger: nat, ghost m: seq<Cell>, ghost a: nat)
    requires state.Forwarding() && mem.Length == state.Size()
    requires state.marked as object != mem as object && state.forwarding != mem
    requires a + 1 < |m| && KnownType(m[a]) && LayoutReady(m, state.marked[..], mem[..], a, at, finger)
    requires at + SizeIn(m, a) <= mem.Length
    requires forall i :: at < i <= at + SlotsIn(m, a) && !Immediate(mem[i]) ==> Address(mem[i]) < mem.Length
    modifies mem
    ensures forall i :: at < i <= at + SlotsIn(m, a) ==> mem[i] == ForwardCell(state.marked[..], old(mem[i]))
    ensures forall i :: 0 <= i <= at || at + SlotsIn(m, a) < i < mem.Length ==> mem[i] == old(mem[i])
  {
    hide Rank, Marked, Bitmap.Forwarding, LayoutSize, ForwardCell, Forward;
    var layoutSize := LayoutCell(mem, state, at, finger, m, a);
    var slots := SlotCount(mem[at], mem[at + 1], layoutSize);
    VisitSlots(mem, state, at + 1, at + 1 + slots);
  }

  lemma MovedFromSlid(m: seq<Cell>, bits: seq<Word>, n: seq<Cell>, slid: seq<Cell>, after: seq<Cell>, scan: nat,
                      dest: nat)
    requires scan + 1 < |m| && KnownType(m[scan]) && scan + SizeIn(m, scan) <= |m| == |n| == |after|
    requires Slid(n, slid, scan, dest, SizeIn(m, scan))
    requires forall i :: dest <= i < dest + SizeIn(m, scan) ==> slid[i] == m[scan + (i - dest)]
    requires forall i :: dest < i <= dest + SlotsIn(m, scan) ==> after[i] == ForwardCell(bits, slid[i])
    requires forall i :: 0 <= i <= dest || dest + SlotsIn(m, scan) < i < |after| ==> after[i] == slid[i]
    ensures BlockMoved(m, bits, n, after, scan, dest, SizeIn(m, scan))
  {
    hide LayoutSize, ForwardCell;
  }

  lemma ScanEven(m: seq<Cell>, live: set<nat>, bits: seq<Word>, n: seq<Cell>, scan: nat, dest: nat, finger: nat)
    requires Heap(m, live, bits) && Progress(m, live, bits, n, scan, dest, finger)
    ensures |m| == |n| && scan % 2 == 0 && dest <= scan <= |m|
    ensures scan / LineSize <= WordBits * |bits| && dest == Forward(bits, scan)
  {}

  // compaction_fixup.size
  method BlockSize(mem: array<Cell>, state: Bitmap, scan: nat, finger: nat,
                   ghost m: seq<Cell>, ghost live: set<nat>, ghost dest: nat, ghost bits: seq<Word>) returns (size: nat)
    requires state.Forwarding() && mem.Length == state.Size() && bits == state.marked[..]
    requires Heap(m, live, bits) && Progress(m, live, bits, mem[..], scan, dest, finger)
    requires scan < mem.Length
    ensures Marked(bits, scan / LineSize) ==>
      scan in live && ObjectAt(m, live, scan) && size == SizeIn(m, scan) && !FreeP(mem[scan])
    ensures 0 < size <= mem.Length - scan && size % 2 == 0
    ensures !Marked(bits, scan / LineSize) ==> Gap(bits, scan, scan + size)
  {
    hide Rank, Marked, Bitmap.Forwarding, Objects, MarksMatch, Progress, ObjectAt, LayoutReady, LayoutSize;
    ghost var n := mem[..];
    ScanEven(m, live, bits, n, scan, dest, finger);
    if state.MarkedP(scan) {
      MarkedIsObject(m, live, bits, n, scan, dest, finger);
      ObjectSizeEven(m, live, scan);
      LayoutAtScan(m, live, bits, n, scan, dest, finger);
      var layoutSize := LayoutCell(mem, state, scan, finger, m, scan);
      size := ObjectSize(mem[scan], mem[scan + 1], layoutSize);
    } else {
      var next := state.NextMarked(scan);
      assert state.marked[..] == bits;
      size := next - scan;
    }
  }

  // ----- the blocks and object starts of the compacted space

  // The destinations of the objects below scan tile the lines below dest, with their sizes, and the start map
  // describes them.
  ghost predicate Recorded(
    m: seq<Cell>, live: set<nat>, bits: seq<Word>, scan: nat, dest: nat, kept: map<nat, nat>, offsets: seq<nat>)
    requires Heap(m, live, bits)
  {
    && Tiled(kept, dest / LineSize) && ObjectStarts.MapOk(offsets, ObjectStarts.CellStarts(kept))
    && (forall a :: a in live && a < scan ==> RecordedAt(m, live, bits, kept, a))
    && (forall k :: k in kept ==> exists a :: a in live && a < scan && Destination(m, live, bits, a, k))
  }

  ghost predicate Destination(m: seq<Cell>, live: set<nat>, bits: seq<Word>, a: nat, k: nat)
    requires Heap(m, live, bits) && a in live
  {
    ObjectSizeEven(m, live, a);
    LineSize * k == Forward(bits, a)
  }

  ghost predicate RecordedAt(m: seq<Cell>, live: set<nat>, bits: seq<Word>, kept: map<nat, nat>, a: nat)
    requires Heap(m, live, bits) && a in live
  {
    ObjectSizeEven(m, live, a);
    var k := Forward(bits, a) / LineSize;
    k in kept && LineSize * kept[k] == SizeIn(m, a)
  }

  lemma RecordedStart(m: seq<Cell>, live: set<nat>, bits: seq<Word>, offsets: seq<nat>)
    requires Heap(m, live, bits) && ObjectStarts.MapOk(offsets, {})
    ensures Recorded(m, live, bits, 0, 0, map[], offsets)
  {
    assert ObjectStarts.CellStarts(map[]) == {};
  }

  lemma RecordedGap(
    m: seq<Cell>, live: set<nat>, bits: seq<Word>, scan: nat, dest: nat, kept: map<nat, nat>, offsets: seq<nat>,
    next: nat)
    requires Heap(m, live, bits) && Recorded(m, live, bits, scan, dest, kept, offsets)
    requires scan <= next <= |m| && scan % 2 == 0 && next % 2 == 0
    requires Gap(bits, scan, next)
    ensures Recorded(m, live, bits, next, dest, kept, offsets)
  {
    hide Marked, Rank, RecordedAt, Destination, Tiled, ObjectStarts.MapOk;
    forall a | a in live && a < next ensures a < scan {
      ObjectSizeEven(m, live, a);
      assert Inside(m, a, a / 2);
    }
    forall k | k in kept ensures exists a :: a in live && a < next && Destination(m, live, bits, a, k) {
      var a :| a in live && a < scan && Destination(m, live, bits, a, k);
      assert a < next;
    }
  }

  lemma RecordedObject(
    m: seq<Cell>, live: set<nat>, bits: seq<Word>, scan: nat, dest: nat, kept: map<nat, nat>,
    before: seq<nat>, offsets: seq<nat>)
    requires Heap(m, live, bits) && Recorded(m, live, bits, scan, dest, kept, before)
    requires scan in live && ObjectAt(m, live, scan) && dest == Forward(bits, scan)
    requires ObjectStarts.MapOk(offsets, ObjectStarts.CellStarts(kept) + {dest})
    ensures var size := SizeIn(m, scan);
            Recorded(m, live, bits, scan + size, dest + size, kept[dest / LineSize := size / LineSize], offsets)
  {
    hide Marked, Rank, Tiled, Objects, MarksMatch, ObjectAt, ObjectStarts.MapOk, SizeIn, Forward, RecordedAt;
    hide Destination;
    ObjectSizeEven(m, live, scan);
    AtDestination(m, live, bits, scan);
    var size, k := SizeIn(m, scan), dest / LineSize;
    TiledAppend(kept, k, size / LineSize);
    var after := kept[k := size / LineSize];
    ObjectStarts.CellStartsAdd(kept, k, size / LineSize);
    forall a | a in live && a < scan + size ensures RecordedAt(m, live, bits, after, a) {
      RecordedStill(m, live, bits, kept, scan, a);
    }
    forall j | j in after ensures exists a :: a in live && a < scan + size && Destination(m, live, bits, a, j) {
      if j != k {
        var a :| a in live && a < scan && Destination(m, live, bits, a, j);
        assert a < scan + size;
      }
    }
  }

  lemma AtDestination(m: seq<Cell>, live: set<nat>, bits: seq<Word>, a: nat)
    requires Heap(m, live, bits) && a in live
    ensures a / LineSize <= WordBits * |bits| && Destination(m, live, bits, a, Forward(bits, a) / LineSize)
  {
    hide Marked, Rank;
    ObjectSizeEven(m, live, a);
  }

  lemma RecordedStill(m: seq<Cell>, live: set<nat>, bits: seq<Word>, kept: map<nat, nat>, scan: nat, a: nat)
    requires Heap(m, live, bits) && scan in live && ObjectAt(m, live, scan) && scan / LineSize <= WordBits * |bits|
    requires a in live && a < scan + SizeIn(m, scan) && (a < scan ==> RecordedAt(m, live, bits, kept, a))
    requires Forward(bits, scan) / LineSize !in kept
    ensures RecordedAt(m, live, bits, kept[Forward(bits, scan) / LineSize := SizeIn(m, scan) / LineSize], a)
  {
    hide Marked, Rank, LayoutSize, ObjectAt;
    ObjectSizeEven(m, live, a);
    ObjectSizeEven(m, live, scan);
  }

  // The blocks kept are exactly the destinations of the live objects.
  ghost predicate KeptBlocks(m: seq<Cell>, live: set<nat>, bits: seq<Word>, kept: map<nat, nat>)
    requires Heap(m, live, bits)
  {
    && (forall a :: a in live ==> RecordedAt(m, live, bits, kept, a))
    && (forall k :: k in kept ==> exists a :: a in live && Destination(m, live, bits, a, k))
  }

  lemma RecordedEnd(
    m: seq<Cell>, live: set<nat>, bits: seq<Word>, dest: nat, kept: map<nat, nat>, offsets: seq<nat>)
    requires Heap(m, live, bits) && Recorded(m, live, bits, |m|, dest, kept, offsets)
    ensures Tiled(kept, dest / LineSize) && KeptBlocks(m, live, bits, kept)
    ensures ObjectStarts.MapOk(offsets, ObjectStarts.CellStarts(kept))
  {
    hide Marked, Rank, Tiled, ObjectAt, ObjectStarts.MapOk, RecordedAt, Destination;
    forall a | a in live ensures a < |m| {
      ObjectSizeEven(m, live, a);
    }
  }

  // free_list_allocator::iterate: the block at scan is measured, moved if it is live, and passed.
  method CompactNext(mem: array<Cell>, state: Bitmap, starts: ObjectStarts.StartMap,
                     scan: nat, dest: nat, finger: nat, kept: map<nat, nat>,
                     ghost m: seq<Cell>, ghost live: set<nat>, ghost bits: seq<Word>)
    returns (scan': nat, dest': nat, finger': nat, kept': map<nat, nat>)
    requires state.Forwarding() && mem.Length == state.Size() && scan < mem.Length && bits == state.marked[..]
    requires Separate(mem, state, starts) && mem.Length == CardCells * starts.offsets.Length
    requires Heap(m, live, bits) && Progress(m, live, bits, mem[..], scan, dest, finger)
    requires Recorded(m, live, bits, scan, dest, kept, starts.offsets[..])
    modifies mem, starts.offsets
    ensures scan < scan' <= mem.Length && Progress(m, live, bits, mem[..], scan', dest', finger')
    ensures Recorded(m, live, bits, scan', dest', kept', starts.offsets[..])
  {
    hide Rank, Marked, Bitmap.Forwarding, Heap, Progress, BlockMoved, ObjectAt, LayoutSize, Moved, Forward, SizeIn;
    hide FreeP, KnownType, Bitmap.MarkedP, Recorded, Gap;
    ghost var n := mem[..];
    dest', finger', kept' := dest, finger, kept;
    ScanEven(m, live, bits, n, scan, dest, finger);
    var size := BlockSize(mem, state, scan, finger, m, live, dest, bits);
    if state.MarkedP(scan) {
      if !FreeP(mem[scan]) {
        finger' := scan + size;
        kept' := CompactLive(mem, state, starts, scan, dest, size, finger, kept, m, live, bits);
        dest' := dest + size;
      }
    } else {
      GapStep(m, live, bits, n, scan, dest, finger, scan + size);
      RecordedGap(m, live, bits, scan, dest, kept, starts.offsets[..], scan + size);
    }
    scan' := scan + size;
  }

  // A live block: moved, forwarded and recorded
  method CompactLive(mem: array<Cell>, state: Bitmap, starts: ObjectStarts.StartMap, scan: nat, dest: nat, size: nat,
                     ghost finger: nat, kept: map<nat, nat>,
                     ghost m: seq<Cell>, ghost live: set<nat>, ghost bits: seq<Word>)
    returns (kept': map<nat, nat>)
    requires state.Forwarding() && mem.Length == state.Size() && bits == state.marked[..]
    requires Separate(mem, state, starts) && mem.Length == CardCells * starts.offsets.Length
    requires Heap(m, live, bits) && Progress(m, live, bits, mem[..], scan, dest, finger)
    requires Recorded(m, live, bits, scan, dest, kept, starts.offsets[..])
    requires scan in live && ObjectAt(m, live, scan) && size == SizeIn(m, scan)
    modifies mem, starts.offsets
    ensures Progress(m, live, bits, mem[..], scan + size, dest + size, scan + size)
    ensures Recorded(m, live, bits, scan + size, dest + size, kept', starts.offsets[..])
  {
    hide Rank, Marked, Bitmap.Forwarding, Heap, Progress, BlockMoved, ObjectAt, LayoutSize, Moved, Forward, SizeIn;
    hide KnownType, Recorded;
    ghost var n, offsets := mem[..], starts.offsets[..];
    ScanEven(m, live, bits, n, scan, dest, finger);
    CompactBlock(mem, state, scan, dest, size, scan + size, m, live, finger, bits);
    BlockStep(m, live, bits, n, mem[..], scan, dest, finger);
    ghost var after := mem[..];
    assert starts.offsets[..] == offsets;
    SizeFits(m, live, bits, scan);
    kept' := RecordStart(starts, scan, dest, size, kept, m, live, bits);
    assert mem[..] == after;
  }

  lemma SizeFits(m: seq<Cell>, live: set<nat>, bits: seq<Word>, a: nat)
    requires Heap(m, live, bits) && a in live
    ensures |m| == LineSize * WordBits * |bits| && a / LineSize <= WordBits * |bits|
  {
    hide Marked, Rank;
    ObjectSizeEven(m, live, a);
  }

  // The arrays involved are different ones.
  ghost predicate Separate(mem: array<Cell>, state: Bitmap, starts: ObjectStarts.StartMap)
    reads state
  {
    && state.marked as object != mem as object && state.forwarding != mem && starts.offsets != mem
    && state.marked as object != starts.offsets as object && state.forwarding != starts.offsets
  }

  // The destination of a moved object joins the blocks kept and the start map.
  method RecordStart(starts: ObjectStarts.StartMap, ghost scan: nat, dest: nat, size: nat, kept: map<nat, nat>,
                     ghost m: seq<Cell>, ghost live: set<nat>, ghost bits: seq<Word>)
    returns (kept': map<nat, nat>)
    requires Heap(m, live, bits) && Recorded(m, live, bits, scan, dest, kept, starts.offsets[..])
    requires scan in live && ObjectAt(m, live, scan) && size == SizeIn(m, scan) && dest == Forward(bits, scan)
    requires |m| == CardCells * starts.offsets.Length
    modifies starts.offsets
    ensures Recorded(m, live, bits, scan + size, dest + size, kept', starts.offsets[..])
  {
    hide Rank, Marked, Heap, ObjectAt, LayoutSize, Moved, Forward, SizeIn, KnownType, Tiled, ObjectStarts.MapOk;
    ghost var before := starts.offsets[..];
    DestinationFits(m, live, bits, scan);
    starts.Record(dest, ObjectStarts.CellStarts(kept));
    RecordedObject(m, live, bits, scan, dest, kept, before, starts.offsets[..]);
    kept' := kept[dest / LineSize := size / LineSize];
  }

  lemma DestinationFits(m: seq<Cell>, live: set<nat>, bits: seq<Word>, a: nat)
    requires Heap(m, live, bits) && a in live
    ensures a / LineSize <= WordBits * |bits| && Forward(bits, a) < |m|
  {
    hide Rank, Marked;
    ObjectSizeEven(m, live, a);
  }

  // free_list_allocator::compact over the tenured space. Every live object ends up, forwarded,
  // at its rank; the cells in use end up dense at the bottom and their number is returned. The blocks kept
  // tile those cells, and the start map describes them.
  method CompactSpace(mem: array<Cell>, state: Bitmap, starts: ObjectStarts.StartMap, ghost live: set<nat>)
    returns (occupied: nat, kept: map<nat, nat>)
    requires state.Forwarding() && mem.Length == state.Size()
    requires Separate(mem, state, starts) && mem.Length == CardCells * starts.offsets.Length
    requires Heap(mem[..], live, state.marked[..])
    modifies mem, starts.offsets
    ensures Forward(state.marked[..], mem.Length) == occupied
    ensures forall a :: a in live ==> Moved(old(mem[..]), state.marked[..], mem[..], a)
    ensures Tiled(kept, occupied / LineSize) && ObjectStarts.MapOk(starts.offsets[..], ObjectStarts.CellStarts(kept))
    ensures KeptBlocks(old(mem[..]), live, state.marked[..], kept)
  {
    hide Rank, Marked, Bitmap.Forwarding, Heap, Progress, Moved, Forward, Recorded, KeptBlocks, Tiled;
    hide ObjectStarts.MapOk;
    ghost var m, bits := mem[..], state.marked[..];
    ProgressStart(m, live, bits);
    starts.Clear();
    assert mem[..] == m;
    RecordedStart(m, live, bits, starts.offsets[..]);
    var scan: nat, dest: nat, finger: nat := 0, 0, 0;
    kept := map[];
    while scan != mem.Length
      invariant state.Forwarding() && scan <= mem.Length && bits == state.marked[..]
      invariant Progress(m, live, bits, mem[..], scan, dest, finger)
      invariant Recorded(m, live, bits, scan, dest, kept, starts.offsets[..])
      decreases mem.Length - scan
    {
      scan, dest, finger, kept := CompactNext(mem, state, starts, scan, dest, finger, kept, m, live, bits);
    }
    occupied := dest;
    ProgressEnd(m, live, bits, mem[..], dest, finger);
    RecordedEnd(m, live, bits, dest, kept, starts.offsets[..]);
  }

  // ----- what compaction means for the program

  // The address of the object a pointer refers to, and the value in one of its slots
  ghost function Fetch(m: seq<Cell>, live: set<nat>, c: Cell, slot: nat): (d: Cell)
    requires Objects(m, live) && !Immediate(c) && Address(c) in live && ValidSlot(m, live, Address(c), slot)
    ensures !Immediate(d) ==> Address(d) in live
  {
    ObjectSizeEven(m, live, Address(c));
    m[Address(c) + slot]
  }

  ghost predicate ValidSlot(m: seq<Cell>, live: set<nat>, a: nat, slot: nat)
    requires Objects(m, live) && a in live
  {
    ObjectSizeEven(m, live, a);
    ValueAt(m, a, slot)
  }

  // The live objects of the compacted heap
  ghost function NewLive(live: set<nat>, bits: seq<Word>): set<nat>
    requires forall a :: a in live ==> a / LineSize <= WordBits * |bits|
  {
    set a | a in live :: Forward(bits, a)
  }

  // An object's first two cells and layout read the same after the move, so its size and slots do too.
  lemma SameShape(m: seq<Cell>, live: set<nat>, bits: seq<Word>, n: seq<Cell>, a: nat)
    requires Heap(m, live, bits) && a in live && |n| == |m|
    requires forall b :: b in live ==> Moved(m, bits, n, b)
    ensures ObjectAt(m, live, a)
    ensures var b := Forward(bits, a);
            b + 1 < |n| && n[b] == m[a] && LayoutSize(n, b) == LayoutSize(m, a)
            && SizeIn(n, b) == SizeIn(m, a) && SlotsIn(n, b) == SlotsIn(m, a)
  {
    hide Marked, Rank, Forward, LayoutSize, Objects, MarksMatch;
    ObjectSizeEven(m, live, a);
    var b := Forward(bits, a);
    assert Moved(m, bits, n, a);
    assert n[b] == MovedCell(m, bits, a, b - b) == m[a];
    assert n[b + 1] == MovedCell(m, bits, a, b + 1 - b);
    SameLayout(m, live, bits, n, a);
    FirstCellRead(m, bits, n, a);
  }

  // The size cell of the layout is found through the forwarded pointer.
  lemma SameLayout(m: seq<Cell>, live: set<nat>, bits: seq<Word>, n: seq<Cell>, a: nat)
    requires Heap(m, live, bits) && a in live && |n| == |m| && ObjectAt(m, live, a)
    requires forall b :: b in live ==> Moved(m, bits, n, b)
    requires var b := Forward(bits, a); b + 1 < |n| && n[b] == m[a] && n[b + 1] == MovedCell(m, bits, a, 1)
    ensures LayoutSize(n, Forward(bits, a)) == LayoutSize(m, a)
  {
    hide Marked, Rank, Objects, MarksMatch;
    if Type(m[a]) == TupleType {
      var l := Address(m[a + 1]);
      LayoutLive(m, live, a);
      ObjectSizeEven(m, live, l);
      assert Moved(m, bits, n, l);
      var k := Forward(bits, l) + 3;
      assert ValueAt(m, a, 1) && ValueAt(m, l, 3);
      assert n[k] == MovedCell(m, bits, l, k - Forward(bits, l)) == m[l + 3];
    }
  }

  // For the types whose size or slots depend on it, the second cell is an immediate or not scanned.
  lemma FirstCellRead(m: seq<Cell>, bits: seq<Word>, n: seq<Cell>, a: nat)
    requires a + 1 < |m| && KnownType(m[a]) && a / LineSize <= WordBits * |bits|
    requires Type(m[a]) == ArrayType || Type(m[a]) == StringType ==> Immediate(m[a + 1])
    requires var b := Forward(bits, a);
             && b + 1 < |n| && n[b] == m[a] && n[b + 1] == MovedCell(m, bits, a, 1)
             && LayoutSize(n, b) == LayoutSize(m, a)
    ensures var b := Forward(bits, a); SizeIn(n, b) == SizeIn(m, a) && SlotsIn(n, b) == SlotsIn(m, a)
  {
    hide Forward, LayoutSize;
    assert ValueAt(m, a, 1) <==> 1 <= SlotsIn(m, a);
  }

  // A block kept is as large as the object that stands there.
  lemma KeptShape(m: seq<Cell>, live: set<nat>, bits: seq<Word>, n: seq<Cell>, kept: map<nat, nat>, k: nat)
    requires Heap(m, live, bits) && |n| == |m| && KeptBlocks(m, live, bits, kept) && k in kept
    requires forall a :: a in live ==> Moved(m, bits, n, a)
    ensures LineSize * k + 1 < |n| && KnownType(n[LineSize * k]) && SizeIn(n, LineSize * k) == LineSize * kept[k]
  {
    hide Heap, Moved, SizeIn, LayoutSize, Forward, ObjectAt, SlotsIn, KnownType, Destination, RecordedAt;
    var a :| a in live && Destination(m, live, bits, a, k);
    assert RecordedAt(m, live, bits, kept, a);
    KeptAt(m, live, bits, kept, a, k);
    SameShape(m, live, bits, n, a);
  }

  lemma KeptAt(m: seq<Cell>, live: set<nat>, bits: seq<Word>, kept: map<nat, nat>, a: nat, k: nat)
    requires Heap(m, live, bits) && a in live && Destination(m, live, bits, a, k) && RecordedAt(m, live, bits, kept, a)
    ensures ObjectAt(m, live, a) && a + 1 < |m| && KnownType(m[a]) && a / LineSize <= WordBits * |bits|
    ensures k in kept && LineSize * k == Forward(bits, a) && LineSize * kept[k] == SizeIn(m, a)
  {
    hide Marked, Rank, LayoutSize, ObjectAt, SizeIn, Forward;
    ObjectSizeEven(m, live, a);
  }

  // The compacted heap is well formed again ...
  lemma CompactedObject(m: seq<Cell>, live: set<nat>, bits: seq<Word>, n: seq<Cell>, a: nat)
    requires Heap(m, live, bits) && a in live && |n| == |m|
    requires forall b :: b in live ==> Moved(m, bits, n, b)
    requires forall b :: b in live ==> b / LineSize <= WordBits * |bits|
    ensures ObjectAt(n, NewLive(live, bits), Forward(bits, a))
  {
    hide Marked, Rank, LayoutSize;
    var b := Forward(bits, a);
    SameShape(m, live, bits, n, a);
    ObjectSizeEven(m, live, a);
    assert Moved(m, bits, n, a);
    SlotForwarded(m, live, bits, n, a, 1);
    if Type(m[a]) == TupleType {
      LayoutLive(m, live, a);
      LayoutMoved(m, live, bits, n, Address(m[a + 1]));
    }
    forall i | b < i <= b + SlotsIn(n, b) && !Immediate(n[i]) ensures Address(n[i]) in NewLive(live, bits) {
      SlotForwarded(m, live, bits, n, a, i - b);
    }
  }

  // Each slot of a moved object holds the forwarded value; a pointer leads to the destination of its object.
  lemma SlotForwarded(m: seq<Cell>, live: set<nat>, bits: seq<Word>, n: seq<Cell>, a: nat, slot: nat)
    requires Heap(m, live, bits) && a in live && |n| == |m|
    requires forall b :: b in live ==> Moved(m, bits, n, b)
    ensures ObjectAt(m, live, a) && Forward(bits, a) + SizeIn(m, a) <= |n|
    ensures 1 <= slot <= SlotsIn(m, a) ==>
              var c, d := m[a + slot], n[Forward(bits, a) + slot];
              && d == ForwardCell(bits, c) && Tag(d) == Tag(c)
              && (Immediate(c) ==> d == c)
              && (!Immediate(c) ==>
                    && Address(c) in live && Address(c) / LineSize <= WordBits * |bits|
                    && Address(d) == Forward(bits, Address(c)))
  {
    hide Marked, Rank, LayoutSize;
    ObjectSizeEven(m, live, a);
    assert Moved(m, bits, n, a);
    if 1 <= slot <= SlotsIn(m, a) {
      var k := Forward(bits, a) + slot;
      assert n[k] == MovedCell(m, bits, a, k - Forward(bits, a));
      if !Immediate(m[a + slot]) {
        ObjectSizeEven(m, live, Address(m[a + slot]));
      }
    }
  }

  lemma LayoutMoved(m: seq<Cell>, live: set<nat>, bits: seq<Word>, n: seq<Cell>, l: nat)
    requires Heap(m, live, bits) && l in live && LayoutAt(m, l) && |n| == |m|
    requires forall b :: b in live ==> Moved(m, bits, n, b)
    ensures LayoutAt(n, Forward(bits, l))
  {
    hide Marked, Rank, LayoutSize;
    SameShape(m, live, bits, n, l);
    SlotForwarded(m, live, bits, n, l, 1);
    SlotForwarded(m, live, bits, n, l, 3);
  }

  // ... with no two objects overlapping.
  lemma CompactedHeap(m: seq<Cell>, live: set<nat>, bits: seq<Word>, n: seq<Cell>)
    requires Heap(m, live, bits) && |n| == |m|
    requires forall a :: a in live ==> Moved(m, bits, n, a)
    ensures forall a :: a in live ==> a / LineSize <= WordBits * |bits|
    ensures Objects(n, NewLive(live, bits))
  {
    hide Marked, Rank, LayoutSize, ObjectAt;
    var after := NewLive(live, bits);
    forall b | b in after ensures ObjectAt(n, after, b) {
      var a :| a in live && Forward(bits, a) == b;
      CompactedObject(m, live, bits, n, a);
    }
    forall b, d | b in after && d in after && b < d
      ensures b + 1 < |n| && KnownType(n[b]) && b + SizeIn(n, b) <= d
    {
      var a :| a in live && Forward(bits, a) == b;
      var c :| c in live && Forward(bits, c) == d;
      SameShape(m, live, bits, n, a);
      ObjectSizeEven(m, live, c);
      DestinationsOrdered(m, live, bits, a, c);
    }
  }

  // Two live objects keep their order, so two pointers are equal after compaction exactly if they were before.
  lemma DestinationsOrdered(m: seq<Cell>, live: set<nat>, bits: seq<Word>, a: nat, c: nat)
    requires Heap(m, live, bits) && a in live && c in live
    ensures ObjectAt(m, live, a) && ObjectAt(m, live, c)
    ensures a < c <==> Forward(bits, a) < Forward(bits, c)
    ensures a < c ==> Forward(bits, a) + SizeIn(m, a) <= Forward(bits, c)
  {
    hide Marked, Rank, Forward;
    ObjectSizeEven(m, live, a);
    ObjectSizeEven(m, live, c);
    if a < c {
      ForwardOrder(m, live, bits, a, c);
    } else if c < a {
      ForwardOrder(m, live, bits, c, a);
    }
  }

  datatype Found = Nowhere | Found(cell: Cell)

  // Follow a path of slot numbers from a value
  ghost function Follow(m: seq<Cell>, live: set<nat>, c: Cell, path: seq<nat>): Found
    requires Objects(m, live) && (Immediate(c) || Address(c) in live)
    decreases |path|
  {
    if path == [] then Found(c)
    else if Immediate(c) || !ValidSlot(m, live, Address(c), path[0]) then Nowhere
    else Follow(m, live, Fetch(m, live, c, path[0]), path[1..])
  }

  ghost function ForwardFound(bits: seq<Word>, f: Found): Found {
    if f.Found? then Found(ForwardCell(bits, f.cell)) else Nowhere
  }

  // Every access path reads the same immediate, or the forwarded pointer, as it did before compaction.
  lemma {:induction false} PathPreserved(m: seq<Cell>, live: set<nat>, bits: seq<Word>, n: seq<Cell>, c: Cell,
                                         path: seq<nat>)
    requires Heap(m, live, bits) && |n| == |m| && (forall a :: a in live ==> Moved(m, bits, n, a))
    requires Immediate(c) || Address(c) in live
    ensures forall a :: a in live ==> a / LineSize <= WordBits * |bits|
    ensures Objects(n, NewLive(live, bits))
    ensures var d := ForwardCell(bits, c);
            && (Immediate(d) || Address(d) in NewLive(live, bits))
            && Follow(n, NewLive(live, bits), d, path) == ForwardFound(bits, Follow(m, live, c, path))
    decreases |path|
  {
    hide Marked, Rank, ObjectAt, Objects, MarksMatch, Forward, Moved, ForwardCell, Fetch, ValidSlot, Immediate, Address;
    hide NewLive;
    CompactedHeap(m, live, bits, n);
    CellForwarded(m, live, bits, c);
    if path != [] && !Immediate(c) {
      FetchForwarded(m, live, bits, n, c, path[0]);
      if ValidSlot(m, live, Address(c), path[0]) {
        PathPreserved(m, live, bits, n, Fetch(m, live, c, path[0]), path[1..]);
      }
    }
  }

  lemma FetchForwarded(m: seq<Cell>, live: set<nat>, bits: seq<Word>, n: seq<Cell>, c: Cell, slot: nat)
    requires Heap(m, live, bits) && |n| == |m| && (forall a :: a in live ==> Moved(m, bits, n, a))
    requires !Immediate(c) && Address(c) in live
    requires forall a :: a in live ==> a / LineSize <= WordBits * |bits|
    requires Objects(n, NewLive(live, bits))
    ensures var d := ForwardCell(bits, c);
            && !Immediate(d) && Address(d) in NewLive(live, bits)
            && ValidSlot(n, NewLive(live, bits), Address(d), slot) == ValidSlot(m, live, Address(c), slot)
            && (ValidSlot(m, live, Address(c), slot) ==>
                  Fetch(n, NewLive(live, bits), d, slot) == ForwardCell(bits, Fetch(m, live, c, slot)))
  {
    hide Marked, Rank, LayoutSize, ObjectAt, Objects, Forward, MarksMatch, Moved, ForwardCell, NewLive;
    CellForwarded(m, live, bits, c);
    SameShape(m, live, bits, n, Address(c));
    SlotForwarded(m, live, bits, n, Address(c), slot);
  }

  lemma CellForwarded(m: seq<Cell>, live: set<nat>, bits: seq<Word>, c: Cell)
    requires Heap(m, live, bits) && (Immediate(c) || Address(c) in live)
    ensures forall a :: a in live ==> a / LineSize <= WordBits * |bits|
    ensures var d := ForwardCell(bits, c);
            && Immediate(d) == Immediate(c) && (Immediate(c) ==> d == c)
            && (!Immediate(c) ==> Address(d) == Forward(bits, Address(c)) && Address(d) in NewLive(live, bits))
  {
    forall a | a in live ensures a / LineSize <= WordBits * |bits| {
      ObjectSizeEven(m, live, a);
    }
  }

  // collect_compact_impl for the data heap
  method CompactHeap(mem: array<Cell>, state: Bitmap, starts: ObjectStarts.StartMap, roots: array<Cell>,
                     ghost live: set<nat>)
    returns (occupied: nat, kept: map<nat, nat>)
    requires state.forwarding.Length == state.marked.Length && mem.Length == state.Size()
    requires state.forwarding as object != state.marked as object && mem.Length == CardCells * starts.offsets.Length
    requires Separate(mem, state, starts) && Separate(roots, state, starts) && mem != roots
    requires Heap(mem[..], live, state.marked[..])
    requires forall i :: 0 <= i < roots.Length && !Immediate(roots[i]) ==> Address(roots[i]) in live
    modifies mem, roots, state.forwarding, starts.offsets
    ensures state.marked[..] == old(state.marked[..])
    ensures forall a :: a in live ==> Moved(old(mem[..]), state.marked[..], mem[..], a)
    ensures forall i :: 0 <= i < roots.Length ==> roots[i] == ForwardCell(state.marked[..], old(roots[i]))
    ensures Forward(state.marked[..], mem.Length) == occupied
    ensures Tiled(kept, occupied / LineSize) && ObjectStarts.MapOk(starts.offsets[..], ObjectStarts.CellStarts(kept))
    ensures KeptBlocks(old(mem[..]), live, state.marked[..], kept)
  {
    hide Rank, Marked, Heap, Moved, Forward, ForwardCell, KeptBlocks, Tiled, ObjectStarts.MapOk;
    hide ObjectStarts.CellStarts;
    ghost var m, bits := mem[..], state.marked[..];
    state.ComputeForwarding();
    assert mem[..] == m && state.marked[..] == bits;
    forall i | 0 <= i < roots.Length && !Immediate(roots[i]) ensures Address(roots[i]) < mem.Length {
      RootInRange(m, live, bits, roots[i]);
    }
    occupied, kept := CompactSpace(mem, state, starts, live);
    ghost var n, offsets := mem[..], starts.offsets[..];
    VisitSlots(roots, state, 0, roots.Length);
    assert mem[..] == n && starts.offsets[..] == offsets;
  }

  lemma RootInRange(m: seq<Cell>, live: set<nat>, bits: seq<Word>, c: Cell)
    requires Heap(m, live, bits) && Address(c) in live
    ensures Address(c) < |m|
  {
    ObjectSizeEven(m, live, Address(c));
  }

  // ----- where the mark bits come from

  ghost function Elements(s: seq<nat>): set<nat> { set a | a in s }

  // Marking the lines of each live object in turn yields a bitmap that matches the objects.
  method MarkObjects(m: seq<Cell>, state: Bitmap, objects: seq<nat>)
    requires Objects(m, Elements(objects)) && |m| == state.Size()
    requires forall l :: 0 <= l < WordBits * state.marked.Length ==> !Marked(state.marked[..], l)
    modifies state.marked
    ensures Heap(m, Elements(objects), state.marked[..])
  {
    hide Marked, Objects, RangeSet;
    ghost var live := Elements(objects);
    var i := 0;
    while i < |objects|
      invariant i <= |objects| && MarkedUpTo(m, objects, i, state.marked[..])
    {
      ghost var before := state.marked[..];
      var a := objects[i];
      assert a in live;
      ObjectSizeEven(m, live, a);
      var layout := if Type(m[a]) == TupleType && Address(m[a + 1]) + 3 < |m| then m[Address(m[a + 1]) + 3] else 0;
      state.SetMarked(a, ObjectSize(m[a], m[a + 1], layout));
      MarkedOne(m, objects, i, before, state.marked[..]);
      i := i + 1;
    }
    MarkedAll(m, live, objects, state.marked[..]);
  }

  ghost predicate Occupies(m: seq<Cell>, a: nat, line: nat) {
    a + 1 < |m| && KnownType(m[a]) && Inside(m, a, line)
  }

  ghost predicate MarkedUpTo(m: seq<Cell>, objects: seq<nat>, n: nat, bits: seq<Word>)
    requires n <= |objects|
  {
    && |m| == LineSize * WordBits * |bits|
    && forall l :: 0 <= l < WordBits * |bits| ==>
         (Marked(bits, l) <==> exists j :: 0 <= j < n && Occupies(m, objects[j], l))
  }

  lemma MarkedOne(m: seq<Cell>, objects: seq<nat>, i: nat, before: seq<Word>, bits: seq<Word>)
    requires i < |objects| && MarkedUpTo(m, objects, i, before) && objects[i] + 1 < |m| && KnownType(m[objects[i]])
    requires var a := objects[i]; RangeSet(before, bits, a / LineSize, (a + SizeIn(m, a)) / LineSize, |before|)
    ensures MarkedUpTo(m, objects, i + 1, bits)
  {
    hide Marked, SizeIn;
    forall l | 0 <= l < WordBits * |bits|
      ensures Marked(bits, l) <==> exists j :: 0 <= j < i + 1 && Occupies(m, objects[j], l)
    {
      assert Marked(bits, l) <==> Marked(before, l) || Occupies(m, objects[i], l);
    }
  }

  lemma MarkedAll(m: seq<Cell>, live: set<nat>, objects: seq<nat>, bits: seq<Word>)
    requires Objects(m, live) && (forall a :: a in objects <==> a in live) && MarkedUpTo(m, objects, |objects|, bits)
    ensures Heap(m, live, bits)
  {
    hide Marked, SizeIn;
    forall a, line: nat | a in live && Inside(m, a, line) ensures line < WordBits * |bits| && Marked(bits, line) {
      ObjectSizeEven(m, live, a);
      var j :| 0 <= j < |objects| && objects[j] == a;
      assert Occupies(m, objects[j], line);
    }
    forall line | 0 <= line < WordBits * |bits| && Marked(bits, line)
      ensures exists a :: a in live && Inside(m, a, line)
    {
      var j :| 0 <= j < |objects| && Occupies(m, objects[j], line);
      assert objects[j] in live;
    }
  }
}
