/** The tenured space: a free list allocator together with its object start map (vm/tenured_space.hpp). The blocks,
    used and free, tile the space at all times, and the start map describes the used ones. */
module TenuredSpace {
  import opened Bits
  import opened FreeList
  import opened Layouts
  import opened MarkBits
  import opened Tiling
  import Compaction
  import ObjectStarts

  // The lines of a card
  const CardLines: nat := 16

  // The blocks as a card scan sees them, in cells; `slots` are the scanned cells of each object.
  function View(header: map<nat, nat>, free: set<nat>, slots: map<nat, nat>): map<nat, ObjectStarts.Block> {
    map c | c in ObjectStarts.CellStarts(header) ::
      ObjectStarts.Block(LineSize * header[c / LineSize],
                         if c / LineSize in slots && c / LineSize !in free then slots[c / LineSize] else 0,
                         c / LineSize in free)
  }

  ghost predicate SlotsFit(used: map<nat, nat>, slots: map<nat, nat>) {
    forall a :: a in used ==> a in slots && slots[a] < LineSize * used[a]
  }

  lemma CellStart(t: map<nat, nat>, c: nat)
    ensures c in ObjectStarts.CellStarts(t) <==> c % LineSize == 0 && c / LineSize in t
  {
    if c % LineSize == 0 && c / LineSize in t {
      assert c == LineSize * (c / LineSize);
    }
  }

  lemma ViewTiles(header: map<nat, nat>, free: set<nat>, slots: map<nat, nat>, total: nat)
    requires Tiled(header, total) && SlotsFit(UsedIn(header, free), slots)
    ensures ObjectStarts.Tiles(View(header, free, slots), LineSize * total)
  {
    hide Tiled, ObjectStarts.CellStarts;
    var blocks, n := View(header, free, slots), LineSize * total;
    if total > 0 {
      FirstTile(header, total);
      CellStart(header, 0);
    }
    forall c | c in blocks ensures ObjectStarts.Linked(blocks, n, c) {
      CellStart(header, c);
      TileAt(header, total, c / LineSize);
      CellStart(header, c + blocks[c].size);
    }
    forall c, d | c in blocks && d in blocks && c < d ensures c + blocks[c].size <= d {
      CellStart(header, c);
      CellStart(header, d);
      InOrder(header, total, c / LineSize, d / LineSize);
    }
  }

  lemma FirstTile(t: map<nat, nat>, n: nat)
    requires Tiled(t, n) && n > 0
    ensures 0 in t
  {}

  // The objects the card scan finds are the used blocks.
  lemma ViewStarts(header: map<nat, nat>, free: set<nat>, slots: map<nat, nat>)
    ensures ObjectStarts.Starts(View(header, free, slots)) == ObjectStarts.CellStarts(UsedIn(header, free))
  {
    hide ObjectStarts.CellStarts;
    var blocks := View(header, free, slots);
    forall c ensures c in ObjectStarts.Starts(blocks) <==> c in ObjectStarts.CellStarts(UsedIn(header, free)) {
      CellStart(header, c);
      CellStart(UsedIn(header, free), c);
    }
  }

  // Marks of whole blocks, free ones unmarked, are uniform over the view.
  lemma ViewUniform(header: map<nat, nat>, free: set<nat>, slots: map<nat, nat>, total: nat, bits: seq<Word>)
    requires Tiled(header, total) && Whole(header, bits) && total == WordBits * |bits|
    requires forall a :: a in free ==> !On(bits, a)
    ensures ObjectStarts.MarksUniform(View(header, free, slots), bits)
  {
    hide Tiled, ObjectStarts.CellStarts, Marked;
    var blocks := View(header, free, slots);
    forall c | c in blocks ensures c % LineSize == 0 && blocks[c].size % LineSize == 0 {
      CellStart(header, c);
    }
    forall c, l | c in blocks && c / LineSize <= l < (c + blocks[c].size) / LineSize && l < WordBits * |bits|
      ensures Marked(bits, l) <==> Marked(bits, c / LineSize) && !blocks[c].free
    {
      CellStart(header, c);
      TileAt(header, total, c / LineSize);
      assert Within(l, c / LineSize, header[c / LineSize]);
      assert On(bits, l) <==> On(bits, c / LineSize);
    }
  }

  lemma ViewSurvivors(header: map<nat, nat>, free: set<nat>, slots: map<nat, nat>, total: nat, bits: seq<Word>)
    requires Tiled(header, total) && SlotsFit(UsedIn(header, free), slots) && total == WordBits * |bits|
    ensures ObjectStarts.Tiles(View(header, free, slots), LineSize * total)
    ensures ObjectStarts.Survivors(View(header, free, slots), bits, LineSize * total)
         == ObjectStarts.CellStarts(MarkedIn(UsedIn(header, free), bits))
  {
    hide Tiled, ObjectStarts.CellStarts, Marked, ObjectStarts.Tiles, SlotsFit;
    ViewTiles(header, free, slots, total);
    var kept := MarkedIn(UsedIn(header, free), bits);
    var blocks := View(header, free, slots);
    forall c
      ensures c in ObjectStarts.Survivors(blocks, bits, LineSize * total) <==> c in ObjectStarts.CellStarts(kept)
    {
      CellStart(header, c);
      CellStart(kept, c);
    }
  }

  // A live object is a used block.
  ghost predicate LiveBlock(m: seq<Cell>, header: map<nat, nat>, free: set<nat>, a: nat) {
    && a + 1 < |m| && KnownType(m[a]) && a % LineSize == 0
    && a / LineSize in header && a / LineSize !in free && Compaction.SizeIn(m, a) == LineSize * header[a / LineSize]
  }

  // Marks that match the live objects of a heap cover whole blocks, and no free one.
  lemma MarkingIsWhole(
    m: seq<Cell>, live: set<nat>, bits: seq<Word>, header: map<nat, nat>, free: set<nat>, total: nat)
    requires Compaction.Heap(m, live, bits) && Tiled(header, total) && total == WordBits * |bits|
    requires free <= header.Keys && forall a :: a in live ==> LiveBlock(m, header, free, a)
    ensures Whole(header, bits) && forall b :: b in free ==> !On(bits, b)
  {
    hide Tiled, Marked, Compaction.Objects, Compaction.SizeIn;
    forall b, l: nat | b in header && Within(l, b, header[b])
      ensures On(bits, l) <==> b !in free && LineSize * b in live
    {
      LineOfBlock(m, live, bits, header, free, total, b, l);
    }
    forall b | b in header ensures Within(b, b, header[b]) {
      TileAt(header, total, b);
    }
  }

  lemma LineOfBlock(
    m: seq<Cell>, live: set<nat>, bits: seq<Word>, header: map<nat, nat>, free: set<nat>, total: nat, b: nat, l: nat)
    requires Compaction.Heap(m, live, bits) && Tiled(header, total) && total == WordBits * |bits|
    requires forall a :: a in live ==> LiveBlock(m, header, free, a)
    requires b in header && Within(l, b, header[b])
    ensures On(bits, l) <==> b !in free && LineSize * b in live
  {
    hide Tiled, Marked, Compaction.Objects, Compaction.SizeIn;
    if On(bits, l) {
      var a :| a in live && Compaction.Inside(m, a, l);
      assert LiveBlock(m, header, free, a);
      SameBlock(header, total, a / LineSize, b, l);
    }
    if LineSize * b in live {
      assert LiveBlock(m, header, free, LineSize * b);
      TileAt(header, total, b);
      assert Compaction.Inside(m, LineSize * b, l);
    }
  }

  // What a sweep relies on
  lemma Described(header: map<nat, nat>, free: set<nat>, slots: map<nat, nat>, total: nat, bits: seq<Word>)
    requires Tiled(header, total) && SlotsFit(UsedIn(header, free), slots) && total == WordBits * |bits|
    requires Whole(header, bits) && forall a :: a in free ==> !On(bits, a)
    ensures var blocks := View(header, free, slots);
            && ObjectStarts.Tiles(blocks, LineSize * total) && ObjectStarts.MarksUniform(blocks, bits)
            && ObjectStarts.Starts(blocks) == ObjectStarts.CellStarts(UsedIn(header, free))
            && ObjectStarts.Survivors(blocks, bits, LineSize * total)
            == ObjectStarts.CellStarts(MarkedIn(UsedIn(header, free), bits))
  {
    hide *;
    ViewStarts(header, free, slots);
    ViewUniform(header, free, slots, total, bits);
    ViewSurvivors(header, free, slots, total, bits);
  }

  class TenuredSpace {
    const alloc: Allocator
    const starts: ObjectStarts.StartMap
    var slots: map<nat, nat>

    ghost predicate Valid()
      reads this, alloc, starts.offsets
    {
      && alloc.Valid() && alloc.total == CardLines * starts.offsets.Length && SlotsFit(alloc.Used(), slots)
      && ObjectStarts.MapOk(starts.offsets[..], ObjectStarts.CellStarts(alloc.Used()))
    }

    function Blocks(): map<nat, ObjectStarts.Block>
      reads this, alloc
    {
      View(alloc.header, alloc.blocks, slots)
    }

    // All of it free
    constructor(cards: nat)
      ensures Valid() && fresh(alloc) && fresh(starts) && fresh(starts.offsets)
      ensures starts.offsets.Length == cards && alloc.Used() == map[]
    {
      alloc := new Allocator(CardLines * cards);
      starts := new ObjectStarts.StartMap(cards);
      slots := map[];
      new;
      assert ObjectStarts.CellStarts(map[]) == {};
    }

    // The blocks lie back to back over the whole space, and the start map has the used ones.
    lemma Tiling()
      requires Valid()
      ensures ObjectStarts.Tiles(Blocks(), LineSize * alloc.total)
      ensures ObjectStarts.MapOk(starts.offsets[..], ObjectStarts.Starts(Blocks()))
    {
      hide Lists, Covers, Tiled, ObjectStarts.MapOk, ObjectStarts.Tiles, UsedIn, View;
      ViewTiles(alloc.header, alloc.blocks, slots, alloc.total);
      ViewStarts(alloc.header, alloc.blocks, slots);
    }

    // allot: the new block is recorded in the start map
    method Allot(size: nat, count: nat) returns (ok: bool, a: nat)
      requires Valid() && size > 0 && count < LineSize * size
      modifies this, alloc, starts.offsets
      ensures Valid() && (ok <==> Serves(old(alloc.Now()), size))
      ensures !ok ==> alloc.Used() == old(alloc.Used())
      ensures ok ==> a !in old(alloc.Used()) && alloc.Used() == old(alloc.Used())[a := size]
      ensures ok ==> Range(a, size) <= old(alloc.lines) && alloc.lines == old(alloc.lines) - Range(a, size)
      ensures ok ==> slots == old(slots)[a := count]
      ensures ok ==> Chosen(old(alloc.Now()), size, a)
    {
      hide Good, Range, Serves, Chosen, UsedIn, ObjectStarts.CellStarts, ObjectStarts.MapOk;
      ghost var used := alloc.Used();
      ghost var offsets := starts.offsets[..];
      ok, a := alloc.Allot(size);
      assert starts.offsets[..] == offsets;
      ObjectStarts.CellStartsAdd(used, a, size);
      if ok {
        starts.Record(LineSize * a, ObjectStarts.CellStarts(used));
        slots := slots[a := count];
      }
    }

    // sweep: what was marked stays, and the start map describes exactly that
    method Sweep(state: Bitmap)
      requires Valid() && state.Size() == LineSize * alloc.total && state.marked as object != starts.offsets as object
      requires Whole(alloc.header, state.marked[..]) && forall a :: a in alloc.blocks ==> !On(state.marked[..], a)
      modifies alloc, starts.offsets
      ensures Valid() && alloc.Used() == MarkedIn(old(alloc.Used()), state.marked[..])
      ensures alloc.total == WordBits * state.marked.Length && MaximalRuns(alloc.Now(), alloc.total, state.marked[..])
    {
      hide Lists, Covers, Tiled, Whole, On, UsedIn, Marked, View, MaximalRuns, ObjectStarts.CellStarts;
      hide ObjectStarts.MapOk;
      hide ObjectStarts.Starts, ObjectStarts.Tiles, ObjectStarts.Survivors, ObjectStarts.MarksUniform;
      ghost var header, free, bits := alloc.header, alloc.blocks, state.marked[..];
      ghost var offsets := starts.offsets[..];
      assert alloc.total == WordBits * |bits|;
      Described(header, free, slots, alloc.total, bits);
      alloc.Sweep(state);
      assert starts.offsets[..] == offsets && state.marked[..] == bits;
      starts.UpdateForSweep(state, View(header, free, slots));
      assert state.marked[..] == bits;
    }

    // A scan of the marked cards visits exactly the slots of the used blocks on them.
    method VisitCards(marks: seq<bool>) returns (ok: bool, visited: seq<nat>)
      requires Valid() && |marks| == starts.offsets.Length
      ensures !ok <==> exists e :: ObjectStarts.Stuck(Blocks(), marks, e)
      ensures ok ==> ObjectStarts.Ascending(visited)
      ensures ok ==> forall x: nat :: x in visited <==> ObjectStarts.MarkedSlot(Blocks(), marks, x)
    {
      hide Good, ObjectStarts.MapOk, ObjectStarts.Tiles, ObjectStarts.Starts, View;
      Tiling();
      var blocks := Blocks();
      ok, visited := ObjectStarts.VisitCards(starts, blocks, LineSize * alloc.total, marks);
      assert Blocks() == blocks;
    }

    // compact: the live objects, moved to the bottom, are the used blocks, and one free block follows them
    method Compact(mem: array<Cell>, state: Bitmap, roots: array<Cell>, ghost live: set<nat>)
      returns (occupied: nat)
      requires Valid() && mem.Length == state.Size() == LineSize * alloc.total
      requires state.forwarding.Length == state.marked.Length && state.forwarding as object != state.marked as object
      requires Compaction.Separate(mem, state, starts) && Compaction.Separate(roots, state, starts) && mem != roots
      requires Compaction.Heap(mem[..], live, state.marked[..])
      requires forall i :: 0 <= i < roots.Length && !Immediate(roots[i]) ==> Address(roots[i]) in live
      modifies this, alloc, starts.offsets, mem, roots, state.forwarding
      ensures Valid() && state.marked[..] == old(state.marked[..])
      ensures forall a :: a in live ==> Compaction.Moved(old(mem[..]), state.marked[..], mem[..], a)
      ensures forall i :: 0 <= i < roots.Length ==> roots[i] == Compaction.ForwardCell(state.marked[..], old(roots[i]))
      ensures Compaction.KeptBlocks(old(mem[..]), live, state.marked[..], alloc.Used())
      ensures occupied == Compaction.Forward(state.marked[..], mem.Length) / LineSize <= alloc.total
      ensures alloc.lines == Range(occupied, alloc.total - occupied)
      ensures SlotsMatch(mem[..], slots)
    {
      hide Compaction.Heap, Compaction.Moved, Compaction.KeptBlocks, Compaction.ForwardCell, Compaction.Forward, Rank;
      hide Good, Range, UsedIn, Tiled, SlotsMatch, ObjectStarts.CellStarts, ObjectStarts.MapOk, Immediate, Address;
      ghost var m, bits := mem[..], state.marked[..];
      var cells, kept := Compaction.CompactHeap(mem, state, starts, roots, live);
      KeptShapes(m, live, bits, mem[..], kept);
      occupied := cells / LineSize;
      Rebuild(occupied, kept, mem);
    }

    // The free list and the slot counts of a compacted space
    method Rebuild(occupied: nat, kept: map<nat, nat>, mem: array<Cell>)
      requires alloc.total == CardLines * starts.offsets.Length && occupied <= alloc.total && Tiled(kept, occupied)
      requires ObjectStarts.MapOk(starts.offsets[..], ObjectStarts.CellStarts(kept))
      requires ShapesOf(mem[..], kept)
      modifies this, alloc
      ensures Valid() && alloc.Used() == kept && alloc.lines == Range(occupied, alloc.total - occupied)
      ensures SlotsMatch(mem[..], slots)
    {
      hide Good, Range, UsedIn, Tiled, ObjectStarts.CellStarts, ObjectStarts.MapOk, Compaction.LayoutSize;
      ghost var offsets := starts.offsets[..];
      alloc.InitialFreeList(occupied, kept);
      assert starts.offsets[..] == offsets;
      slots := map k | k in kept :: Compaction.SlotsIn(mem[..], LineSize * k);
    }
  }

  // Each object has the scanned cells its header and layout call for.
  ghost predicate SlotsMatch(m: seq<Cell>, slots: map<nat, nat>) {
    forall k :: k in slots ==>
      LineSize * k + 1 < |m| && KnownType(m[LineSize * k]) && slots[k] == Compaction.SlotsIn(m, LineSize * k)
  }

  // Each block is as large as the object there.
  ghost predicate ShapesOf(m: seq<Cell>, kept: map<nat, nat>) {
    forall k :: k in kept ==>
      LineSize * k + 1 < |m| && KnownType(m[LineSize * k]) && Compaction.SizeIn(m, LineSize * k) == LineSize * kept[k]
  }

  lemma KeptShapes(m: seq<Cell>, live: set<nat>, bits: seq<Word>, n: seq<Cell>, kept: map<nat, nat>)
    requires Compaction.Heap(m, live, bits) && |n| == |m| && Compaction.KeptBlocks(m, live, bits, kept)
    requires forall a :: a in live ==> Compaction.Moved(m, bits, n, a)
    ensures ShapesOf(n, kept)
  {
    hide Compaction.Heap, Compaction.KeptBlocks, Compaction.Moved, Compaction.SizeIn;
    forall k | k in kept
      ensures LineSize * k + 1 < |n| && KnownType(n[LineSize * k])
      ensures Compaction.SizeIn(n, LineSize * k) == LineSize * kept[k]
    {
      Compaction.KeptShape(m, live, bits, n, kept, k);
    }
  }
}
