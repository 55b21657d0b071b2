/** The three copying collections and the retry loop that joins them (vm/nursery_collector.cpp,
    vm/aging_collector.cpp, vm/to_tenured_collector.cpp, vm/gc.cpp). */
module Collector {
  import opened Copying
  import Layouts
  import ObjectStarts

  // The cells of one card (256 bytes)
  const CardSize: nat := Layouts.CardCells

  // The card of slot i of the object at a; the header comes first
  function CardOf(a: nat, i: nat): nat { (a + 1 + i) / CardSize }

  const CardsPerDeck: nat := 1024

  // The card and deck bytes: which of them carry the nursery mark and which the aging mark
  datatype Marks = Marks(cardsNursery: set<nat>, cardsAging: set<nat>, decksNursery: set<nat>, decksAging: set<nat>) {
    // The cards a scan finds: those marked in a marked deck
    function Nursery(): set<nat> { set k | k in cardsNursery && k / CardsPerDeck in decksNursery }

    function Aging(): set<nat> { set k | k in cardsAging && k / CardsPerDeck in decksAging }

    predicate CardMarked(card: nat, nursery: bool) { card in if nursery then cardsNursery else cardsAging }

    predicate DeckMarked(deck: nat, nursery: bool) { deck in if nursery then decksNursery else decksAging }

    function Mark(card: nat): Marks {
      Marks(cardsNursery + {card}, cardsAging + {card},
            decksNursery + {card / CardsPerDeck}, decksAging + {card / CardsPerDeck})
    }

    function ClearCard(card: nat, all: bool): Marks {
      this.(cardsNursery := cardsNursery - {card}, cardsAging := if all then cardsAging - {card} else cardsAging)
    }

    function ClearDeck(deck: nat, all: bool): Marks {
      this.(decksNursery := decksNursery - {deck}, decksAging := if all then decksAging - {deck} else decksAging)
    }

    function Cleared(gen: Region): Marks {
      var cards := set k | k in cardsNursery + cardsAging && gen.start / CardSize <= k < gen.end / CardSize;
      var decks := set k | k in decksNursery + decksAging && gen.start / DeckSize <= k < gen.end / DeckSize;
      Marks(cardsNursery - cards, cardsAging - cards, decksNursery - decks, decksAging - decks)
    }
  }

  const DeckSize: nat := 32768

  datatype Region = Region(start: nat, end: nat) {
    predicate Contains(a: nat) { start <= a < end }

    // Spaces are aligned to decks.
    ghost predicate Aligned() { start <= end && start % DeckSize == 0 && end % DeckSize == 0 }

    ghost predicate HasDeck(deck: nat) { start / DeckSize <= deck < end / DeckSize }

    ghost predicate HasCard(card: nat) { start / CardSize <= card < end / CardSize }
  }

  datatype Copier = NurseryCopier | ToAgingCopier | FromTenuredRefsCopier

  // A collection: its copier and the spaces it runs over
  datatype Plan = Plan(copier: Copier, nursery: Region, aging: Region, semispace: Region, tenured: Region) {
    // Where the copier stops: outside the nursery, in aging or tenured space, in tenured space
    ghost function Done(): iset<nat> {
      match copier
      case NurseryCopier => iset a: nat | !nursery.Contains(a)
      case ToAgingCopier => iset a: nat | aging.Contains(a) || tenured.Contains(a)
      case FromTenuredRefsCopier => iset a: nat | tenured.Contains(a)
    }

    ghost predicate Spaces() {
      && Disjoint(nursery, aging) && Disjoint(nursery, semispace) && Disjoint(nursery, tenured)
      && Disjoint(aging, semispace) && Disjoint(aging, tenured) && Disjoint(semispace, tenured)
      && nursery.Aligned() && aging.Aligned() && semispace.Aligned() && tenured.Aligned()
    }

    // An object at a of the given size is inside its space.
    ghost predicate Fits(a: nat, size: nat) {
      && (nursery.Contains(a) ==> a + size <= nursery.end) && (aging.Contains(a) ==> a + size <= aging.end)
      && (semispace.Contains(a) ==> a + size <= semispace.end) && (tenured.Contains(a) ==> a + size <= tenured.end)
    }

    // Where the copier allocates
    function Target(): Region { if copier == FromTenuredRefsCopier then tenured else aging }

    ghost predicate Covers(a: nat) {
      nursery.Contains(a) || aging.Contains(a) || semispace.Contains(a) || tenured.Contains(a)
    }
  }

  ghost predicate Disjoint(x: Region, y: Region) { x.end <= y.start || y.end <= x.start }

  // The moving parts of a collection: the heap, the aging allocation pointer, the mark stack, the identity
  // and age of every copy, the objects still to be scanned, and the originals that may be kept
  datatype View = View(store: Store, here: nat, stack: seq<nat>, id: map<nat, nat>, stamp: map<nat, nat>,
                       todo: set<nat>, reach: set<nat>)

  // The objects copied to [lo, hi) lie there back to back.
  ghost predicate Tiled(s: Store, lo: nat, hi: nat) {
    && lo <= hi && (lo < hi ==> lo in s)
    && (forall x :: x in s && lo <= x < hi ==>
          s[x].Live? && 0 < s[x].size <= hi - x && (x + s[x].size < hi ==> x + s[x].size in s))
    && (forall x, y :: x in s && y in s && lo <= x < y < hi && s[x].Live? ==> x + s[x].size <= y)
  }

  // The objects still to be scanned are those from the scan pointer on, or those on the mark stack.
  ghost predicate Worklist(p: Plan, x: View, scan: nat) {
    if p.copier == FromTenuredRefsCopier then
      (forall a :: a in x.todo ==> a in x.stack) && (forall a :: a in x.stack ==> a in x.store && p.tenured.Contains(a))
    else
      && x.stack == [] && p.aging.start <= scan && Tiled(x.store, scan, x.here)
      && (forall a :: a in x.todo ==> a in x.store && scan <= a < x.here)
  }

  // Objects are whole, lie inside their spaces and do not overlap; those in aging space end where it is filled to.
  ghost predicate Placed(p: Plan, s: Store, here: nat) {
    && p.Spaces() && p.aging.start <= here <= p.aging.end
    && (forall a :: a in s ==> p.Covers(a) && s[a].size > 0 && p.Fits(a, s[a].size)) && Apart(s)
    && (forall a :: a in s && s[a].Live? ==> |s[a].slots| < s[a].size)
    && (forall a :: a in s && p.aging.Contains(a) ==> a + s[a].size <= here)
  }

  // What holds at every moment of a collection started on the heap o; `slots` are remembered slots still to be visited.
  ghost predicate Running(p: Plan, o: Store, x: View, slots: set<Slot>, scan: nat) {
    && Placed(p, x.store, x.here) && Iso(o, x.store, x.id, x.stamp)
    && DoneLive(x.store, p.Done()) && Remembered(x.store, p.Done(), slots, x.todo)
    && Worklist(p, x, scan) && Traced(o, p.Done(), x.store, x.id, x.reach)
  }

  // Only what may be kept has been kept: the finished objects stand for such originals, which refer to one another.
  ghost predicate Traced(o: Store, done: iset<nat>, s: Store, id: map<nat, nat>, reach: set<nat>) {
    ClosedIn(o, reach) && forall a :: a in s && a in done && a in id ==> id[a] in reach
  }

  lemma TracedCopy(o: Store, done: iset<nat>, x: View, from: nat, to: nat)
    requires Traced(o, done, x.store, x.id, x.reach) && from in x.store && from in x.id && x.id[from] in x.reach
    ensures Traced(o, done, Copy(x.store, from, to), x.id[to := x.id[from]], x.reach)
  {
    hide ClosedIn;
  }

  lemma TracedSlot(o: Store, done: iset<nat>, x: View, a: nat, i: nat, v: Value)
    requires Traced(o, done, x.store, x.id, x.reach) && a in x.store && x.store[a].Live? && i < |x.store[a].slots|
    ensures Traced(o, done, SetSlot(x.store, a, i, v), x.id, x.reach)
  {
    hide ClosedIn;
  }

  // What a slot of a finished object refers to may be kept.
  lemma SlotTraced(p: Plan, o: Store, x: View, slots: set<Slot>, scan: nat, a: nat, i: nat)
    requires Running(p, o, x, slots, scan) && a in x.store && a in p.Done() && x.store[a].Live?
    requires i < |x.store[a].slots| && x.store[a].slots[i].Pointer?
    ensures x.store[a].slots[i].address in x.id && x.id[x.store[a].slots[i].address] in x.reach
  {
    hide Placed, DoneLive, Remembered, Worklist, Plan.Done, Unique;
    assert Linked(o, x.store, x.id, x.stamp, a);
    assert Matches(x.id, x.store[a].slots[i], o[x.id[a]].slots[i]);
  }

  ghost predicate SameIds(x: View, y: View) {
    forall a :: a in x.id ==> a in y.id && y.id[a] == x.id[a]
  }

  // A copy placed at the end of a tiled region extends the tiling.
  lemma TiledCopy(s: Store, lo: nat, hi: nat, from: nat)
    requires Tiled(s, lo, hi) && from in s && s[from].Live? && s[from].size > 0 && !(lo <= from < hi)
    requires forall a :: a in s ==> !(hi <= a < hi + s[from].size)
    ensures Tiled(Copy(s, from, hi), lo, hi + s[from].size)
  {
    var t, size := Copy(s, from, hi), s[from].size;
    assert forall x :: x in t && lo <= x < hi + size ==> x == hi || (x in s && x < hi && t[x] == s[x]);
  }

  function Copied(x: View, from: nat, to: nat, here: nat, stack: seq<nat>): View
    requires from in x.store && from in x.id && from in x.stamp
  {
    View(Copy(x.store, from, to), here, stack, x.id[to := x.id[from]], x.stamp[to := x.stamp[from] + 1],
         x.todo + {to}, x.reach)
  }

  ghost predicate CanCopy(p: Plan, o: Store, x: View, slots: set<Slot>, scan: nat, from: nat, to: nat) {
    && Running(p, o, x, slots, scan) && from in x.store && x.store[from].Live? && from !in p.Done()
    && to !in x.store && to in p.Done() && p.Covers(to) && p.Fits(to, x.store[from].size)
    && Room(x.store, to, x.store[from].size) && from in x.id && x.id[from] in x.reach
  }

  lemma CopyToAging(p: Plan, o: Store, x: View, slots: set<Slot>, scan: nat, from: nat)
    requires CanCopy(p, o, x, slots, scan, from, x.here) && p.copier != FromTenuredRefsCopier
    requires x.here + x.store[from].size <= p.aging.end
    ensures Running(p, o, Copied(x, from, x.here, x.here + x.store[from].size, x.stack), slots, scan)
  {
    hide Iso, Tiled, DoneLive, Remembered, Copy, Apart, Room, Traced, Plan.Spaces, Plan.Covers, Plan.Fits;
    CopyIso(o, x.store, x.id, x.stamp, from, x.here);
    CopyStep(x.store, p.Done(), slots, x.todo, from, x.here);
    CopyPlaced(p, x.store, x.here, from, x.here, x.here + x.store[from].size);
    CopyTiles(p, o, x, slots, scan, from);
    CopyKeys(x.store, from, x.here);
    TracedCopy(o, p.Done(), x, from, x.here);
  }

  lemma CopyKeys(s: Store, from: nat, to: nat)
    requires from in s
    ensures Copy(s, from, to).Keys == s.Keys + {to}
  {}

  lemma CopySame(s: Store, from: nat, to: nat)
    requires from in s && to !in s
    ensures forall a :: a in s && a != from ==> a in Copy(s, from, to) && Copy(s, from, to)[a] == s[a]
  {}

  lemma CopyTiles(p: Plan, o: Store, x: View, slots: set<Slot>, scan: nat, from: nat)
    requires CanCopy(p, o, x, slots, scan, from, x.here) && p.copier != FromTenuredRefsCopier
    requires x.here + x.store[from].size <= p.aging.end
    ensures scan <= x.here && Tiled(Copy(x.store, from, x.here), scan, x.here + x.store[from].size)
  {
    hide Iso, DoneLive, Remembered, Copy;
    TiledCopy(x.store, scan, x.here, from);
  }

  lemma CopyPlaced(p: Plan, s: Store, here: nat, from: nat, to: nat, after: nat)
    requires Placed(p, s, here) && from in s && s[from].Live? && p.Covers(to) && here <= after <= p.aging.end
    requires (p.aging.Contains(to) ==> to + s[from].size <= after) && p.Fits(to, s[from].size)
    requires to !in s && Room(s, to, s[from].size)
    ensures Placed(p, Copy(s, from, to), after)
  {
    hide Apart, Room, Plan.Spaces, Plan.Covers, Plan.Fits;
    ApartCopy(s, from, to);
  }

  // Everything from the aging allocation pointer to the end of the space is free.
  lemma RoomAhead(p: Plan, s: Store, here: nat, size: nat)
    requires Placed(p, s, here) && here + size <= p.aging.end
    ensures Room(s, here, size)
  {
    hide Apart, Plan.Spaces, Plan.Covers, Plan.Fits;
    forall a | a in s ensures Misses(s, a, here, size) {
      if !p.aging.Contains(a) {
        Beside(p, a, s[a].size);
      }
    }
  }

  // An object outside aging space lies wholly on one side of it.
  lemma Beside(p: Plan, a: nat, size: nat)
    requires p.Spaces() && p.Covers(a) && p.Fits(a, size) && !p.aging.Contains(a)
    ensures a + size <= p.aging.start || p.aging.end <= a
  {}

  lemma CopyToTenured(p: Plan, o: Store, x: View, slots: set<Slot>, scan: nat, from: nat, to: nat)
    requires CanCopy(p, o, x, slots, scan, from, to) && p.copier == FromTenuredRefsCopier
    ensures Running(p, o, Copied(x, from, to, x.here, x.stack + [to]), slots, scan)
  {
    hide Iso, Tiled, DoneLive, Remembered, Copy, Apart, Room, Traced, Plan.Covers, Plan.Fits;
    CopyIso(o, x.store, x.id, x.stamp, from, to);
    CopyStep(x.store, p.Done(), slots, x.todo, from, to);
    CopyPlaced(p, x.store, x.here, from, to, x.here);
    CopyKeys(x.store, from, to);
    TracedCopy(o, p.Done(), x, from, to);
  }

  // How far a step of a collection leads: nothing done is undone, and new objects are in the target space; in aging
  // space they follow those already there.
  ghost predicate Advances(p: Plan, x: View, y: View) {
    && Extends(x.store, y.store, p.Done()) && SameIds(x, y) && y.reach == x.reach && x.here <= y.here
    && (forall a :: a in y.store && a !in x.store ==> p.Target().Contains(a))
    && (p.copier != FromTenuredRefsCopier ==> forall a :: a in y.store && a !in x.store ==> x.here <= a)
  }

  // Any new work on the mark stack uses up a waiting object.
  ghost predicate Spends(p: Plan, x: View, y: View) {
    y.stack == x.stack || Waiting(y.store, p.Done()) < Waiting(x.store, p.Done())
  }

  lemma StandStill(p: Plan, o: Store, x: View, slots: set<Slot>, scan: nat)
    requires Running(p, o, x, slots, scan)
    ensures Advances(p, x, x) && Spends(p, x, x) && x.id.Keys == x.store.Keys && x.stamp.Keys == x.store.Keys
  {}

  lemma AdvanceAging(p: Plan, o: Store, x: View, slots: set<Slot>, scan: nat, from: nat)
    requires Running(p, o, x, slots, scan) && p.copier != FromTenuredRefsCopier
    requires from in x.store && x.store[from].Live? && from !in p.Done() && x.here + x.store[from].size <= p.aging.end
    requires from in x.id && x.id[from] in x.reach
    ensures from in x.id && from in x.stamp && x.here in p.Done() && x.here !in x.store
    ensures var y := Copied(x, from, x.here, x.here + x.store[from].size, x.stack);
            Running(p, o, y, slots, scan) && Advances(p, x, y) && Spends(p, x, y)
  {
    hide Iso, Tiled, Remembered, Worklist, Copy, Extends, Waiting, Apart, Room, Traced;
    StandStill(p, o, x, slots, scan);
    RoomAhead(p, x.store, x.here, x.store[from].size);
    assert p.aging.Contains(x.here) && x.here !in x.store;
    CopyToAging(p, o, x, slots, scan, from);
    CopyKeys(x.store, from, x.here);
    CopyStep(x.store, p.Done(), slots, x.todo, from, x.here);
  }

  lemma AdvanceTenured(p: Plan, o: Store, x: View, slots: set<Slot>, scan: nat, from: nat, to: nat)
    requires Running(p, o, x, slots, scan) && p.copier == FromTenuredRefsCopier
    requires from in x.store && x.store[from].Live? && from !in p.Done() && to !in x.store
    requires from in x.id && x.id[from] in x.reach
    requires p.tenured.Contains(to) && to + x.store[from].size <= p.tenured.end && Room(x.store, to, x.store[from].size)
    ensures from in x.id && from in x.stamp && to in p.Done()
    ensures var y := Copied(x, from, to, x.here, x.stack + [to]);
            Running(p, o, y, slots, scan) && Advances(p, x, y) && Spends(p, x, y)
  {
    hide Iso, Tiled, Remembered, Worklist, Copy, Extends, Waiting, Apart, Room;
    hide Plan.Spaces, Plan.Covers, Plan.Fits, Traced;
    StandStill(p, o, x, slots, scan);
    RoomIn(p, x.store, x.here, p.tenured, to, x.store[from].size);
    CopyToTenured(p, o, x, slots, scan, from, to);
    CopyKeys(x.store, from, to);
    CopyStep(x.store, p.Done(), slots, x.todo, from, to);
  }

  lemma AdvancesTrans(p: Plan, x: View, y: View, z: View)
    requires Advances(p, x, y) && Advances(p, y, z)
    ensures Advances(p, x, z)
    ensures Spends(p, x, y) && Spends(p, y, z) ==> Spends(p, x, z)
  {
    hide Plan.Done, Waiting;
    ExtendsTrans(x.store, y.store, z.store, p.Done());
    ExtendsWaiting(x.store, y.store, p.Done());
    ExtendsWaiting(y.store, z.store, p.Done());
  }

  // A slot redirected to the finished copy of the object it refers to
  lemma Redirect(p: Plan, o: Store, x: View, slots: set<Slot>, scan: nat, a: nat, i: nat, v: Value)
    requires Running(p, o, x, slots, scan) && a in x.store && a in p.Done() && x.store[a].Live?
    requires i < |x.store[a].slots|
    requires x.store[a].slots[i].Pointer? && v.Pointer? && v.tag == x.store[a].slots[i].tag
    requires v.address in x.store && v.address in p.Done() && v.address in x.id
    requires x.store[a].slots[i].address in x.id && x.id[v.address] == x.id[x.store[a].slots[i].address]
    requires x.store[a].slots[i].address in p.Done() ==> v.address == x.store[a].slots[i].address
    ensures var y := x.(store := SetSlot(x.store, a, i, v));
            && Running(p, o, y, slots, scan) && Advances(p, x, y) && Spends(p, x, y)
            && y.store[a].Live? && i < |y.store[a].slots| && DoneValue(p.Done(), y.store[a].slots[i])
  {
    hide Iso, Tiled, Placed, Remembered, DoneLive, Plan.Done, Waiting, Traced;
    StandStill(p, o, x, slots, scan);
    TracedSlot(o, p.Done(), x, a, i, v);
    RedirectIso(o, x.store, x.id, x.stamp, a, i, v);
    SlotStep(x.store, p.Done(), slots, x.todo, a, i, v);
    RedirectPlaced(p, x.store, x.here, a, i, v);
    RedirectTiled(x.store, scan, x.here, a, i, v);
  }

  lemma RedirectPlaced(p: Plan, s: Store, here: nat, a: nat, i: nat, v: Value)
    requires Placed(p, s, here) && a in s && s[a].Live? && i < |s[a].slots|
    ensures Placed(p, SetSlot(s, a, i, v), here)
  {
    hide Apart, Plan.Spaces, Plan.Covers, Plan.Fits;
    ApartSame(s, SetSlot(s, a, i, v));
  }

  lemma RedirectTiled(s: Store, lo: nat, hi: nat, a: nat, i: nat, v: Value)
    requires a in s && s[a].Live? && i < |s[a].slots|
    ensures Tiled(s, lo, hi) ==> Tiled(SetSlot(s, a, i, v), lo, hi)
  {}

  // The slots from i on of an object with n slots
  ghost function SlotsFrom(a: nat, i: nat, n: nat): set<Slot> { set j: nat | i <= j < n :: (a, j) }

  // Finished slots need not be remembered.
  lemma Forget(p: Plan, o: Store, x: View, slots: set<Slot>, fewer: set<Slot>, scan: nat)
    requires Running(p, o, x, slots, scan)
    requires forall a, i ::
      (a, i) in slots && (a, i) !in fewer && a in x.store && x.store[a].Live? && i < |x.store[a].slots| ==>
        DoneValue(p.Done(), x.store[a].slots[i])
    ensures Running(p, o, x, fewer, scan)
  {
    hide Iso, Placed, DoneLive, Worklist, Plan.Done, Traced;
  }

  ghost predicate DoneUpTo(done: iset<nat>, s: Store, a: nat, i: nat, n: nat) {
    && a in s && a in done && s[a].Live? && |s[a].slots| == n && i <= n
    && forall j :: 0 <= j < i ==> DoneValue(done, s[a].slots[j])
  }

  lemma KeepDone(p: Plan, x: View, y: View, a: nat, i: nat, n: nat)
    requires Advances(p, x, y) && DoneUpTo(p.Done(), x.store, a, i, n)
    ensures DoneUpTo(p.Done(), y.store, a, i, n)
  {
    hide Plan.Done, Waiting, SameIds;
  }

  lemma ForgetObject(p: Plan, o: Store, x: View, slots: set<Slot>, scan: nat, a: nat, n: nat)
    requires Running(p, o, x, slots + SlotsFrom(a, 0, n), scan) && DoneUpTo(p.Done(), x.store, a, n, n)
    ensures Running(p, o, x, slots, scan)
  {
    hide Running, Plan.Done;
    Forget(p, o, x, slots + SlotsFrom(a, 0, n), slots, scan);
  }

  // Taking the object at the scan pointer off the Cheney worklist
  lemma OpenScan(p: Plan, o: Store, x: View, slots: set<Slot>, scan: nat)
    requires Running(p, o, x, slots, scan) && p.copier != FromTenuredRefsCopier && scan < x.here
    ensures scan in x.store && scan in p.Done() && x.store[scan].Live? && 0 < x.store[scan].size <= x.here - scan
    ensures x.here <= p.aging.end
    ensures Running(p, o, x.(todo := x.todo - {scan}), slots + SlotsFrom(scan, 0, |x.store[scan].slots|),
                    scan + x.store[scan].size)
  {
    hide Iso, Apart, Plan.Covers, Plan.Fits, Traced;
    var size, n := x.store[scan].size, |x.store[scan].slots|;
    assert forall i :: 0 <= i < n ==> (scan, i) in SlotsFrom(scan, 0, n);
  }

  // Popping an object off the mark stack
  lemma OpenTop(p: Plan, o: Store, x: View, slots: set<Slot>, scan: nat, a: nat)
    requires Running(p, o, x, slots, scan) && p.copier == FromTenuredRefsCopier && x.stack != []
    requires a == x.stack[|x.stack| - 1]
    ensures a in x.store && a in p.Done() && x.store[a].Live?
    ensures Running(p, o, x.(todo := x.todo - {a}, stack := x.stack[..|x.stack| - 1]),
                    slots + SlotsFrom(a, 0, |x.store[a].slots|), scan)
  {
    hide Iso, Placed, Traced;
    var n := |x.store[a].slots|;
    assert forall i :: 0 <= i < n ==> (a, i) in SlotsFrom(a, 0, n);
    assert forall b :: b in x.stack && b != a ==> b in x.stack[..|x.stack| - 1];
  }

  lemma NothingLeft(p: Plan, o: Store, x: View, slots: set<Slot>, scan: nat)
    requires Running(p, o, x, slots, scan)
    requires if p.copier == FromTenuredRefsCopier then x.stack == [] else scan >= x.here
    ensures x.todo == {}
  {
    hide Iso, Placed;
    if a :| a in x.todo {
      assert false;
    }
  }

  // Taking an object off the worklist undoes nothing.
  lemma AdvancesPopped(p: Plan, x: View, popped: View, y: View)
    requires popped == x.(todo := popped.todo, stack := popped.stack) && Advances(p, popped, y)
    ensures Advances(p, x, y)
    ensures Spends(p, popped, y) && |popped.stack| < |x.stack| ==>
      Waiting(y.store, p.Done()) < Waiting(x.store, p.Done()) ||
      (Waiting(y.store, p.Done()) == Waiting(x.store, p.Done()) && |y.stack| < |x.stack|)
  {
    hide Plan.Done, Waiting;
    ExtendsWaiting(x.store, y.store, p.Done());
  }

  // ----- roots and cards

  ghost predicate RootsMatch(id: map<nat, nat>, roots: seq<Value>, originals: seq<Value>) {
    |roots| == |originals| && forall i :: 0 <= i < |roots| ==> Matches(id, roots[i], originals[i])
  }

  // What the roots refer to may be kept.
  ghost predicate RootsIn(originals: seq<Value>, keep: set<nat>) {
    forall i :: 0 <= i < |originals| && originals[i].Pointer? ==> originals[i].address in keep
  }

  lemma RootsKept(x: View, y: View, roots: seq<Value>, originals: seq<Value>)
    requires RootsMatch(x.id, roots, originals) && SameIds(x, y)
    ensures RootsMatch(y.id, roots, originals)
  {}

  // The slots of the objects of a space that lie on given cards
  function CardSlots(s: Store, gen: Region, cards: set<nat>): set<Slot> {
    set a, i | a in s && gen.Contains(a) && s[a].Live? && 0 <= i < |s[a].slots| && CardOf(a, i) in cards :: (a, i)
  }

  // The blocks of a space hold the objects of the heap there, with their slots; addresses count from its start.
  ghost predicate SameObjects(s: Store, gen: Region, blocks: map<nat, ObjectStarts.Block>) {
    && (forall b :: b in blocks ==> gen.Contains(gen.start + b) && (blocks[b].free ==> blocks[b].slots == 0))
    && (forall b :: b in blocks && !blocks[b].free ==> ObjectOf(s, gen.start + b, blocks[b].slots))
    && (forall a :: a in s && gen.Contains(a) && s[a].Live? ==>
          a - gen.start in blocks && blocks[a - gen.start].slots == |s[a].slots|)
  }

  ghost predicate ObjectOf(s: Store, a: nat, slots: nat) { a in s && s[a].Live? && |s[a].slots| == slots }

  // The slots of the heap on a card are those the scan of the card visits.
  lemma CardSlotsVisited(s: Store, gen: Region, blocks: map<nat, ObjectStarts.Block>, card: nat, visited: seq<nat>)
    requires gen.Aligned() && SameObjects(s, gen, blocks)
    requires forall x :: x in visited <==>
      card * CardSize <= x < (card + 1) * CardSize && ObjectStarts.IsSlot(blocks, x)
    ensures forall x: nat :: x in visited <==>
      exists e :: e in CardSlots(s, gen, {gen.start / CardSize + card}) && gen.start + x == e.0 + 1 + e.1
  {
    hide Region.Aligned, Region.Contains, SameObjects, CardSlots;
    var slots := CardSlots(s, gen, {gen.start / CardSize + card});
    forall x: nat ensures x in visited <==> exists e :: e in slots && gen.start + x == e.0 + 1 + e.1 {
      if x in visited {
        var b :| b in blocks && b < x <= b + blocks[b].slots;
        SlotOfBlock(s, gen, blocks, card, x, b);
        assert (gen.start + b, x - b - 1) in slots;
      }
      if e :| e in slots && gen.start + x == e.0 + 1 + e.1 {
        BlockOfSlot(s, gen, blocks, card, x, e);
      }
    }
  }

  lemma SlotOfBlock(s: Store, gen: Region, blocks: map<nat, ObjectStarts.Block>, card: nat, x: nat, b: nat)
    requires gen.Aligned() && SameObjects(s, gen, blocks) && card * CardSize <= x < (card + 1) * CardSize
    requires b in blocks && b < x <= b + blocks[b].slots
    ensures (gen.start + b, x - b - 1) in CardSlots(s, gen, {gen.start / CardSize + card})
  {
    hide Region.Aligned;
    assert ObjectOf(s, gen.start + b, blocks[b].slots);
    CardFrom(gen, x, card);
  }

  lemma BlockOfSlot(s: Store, gen: Region, blocks: map<nat, ObjectStarts.Block>, card: nat, x: nat, e: Slot)
    requires gen.Aligned() && SameObjects(s, gen, blocks)
    requires e in CardSlots(s, gen, {gen.start / CardSize + card}) && gen.start + x == e.0 + 1 + e.1
    ensures card * CardSize <= x < (card + 1) * CardSize && ObjectStarts.IsSlot(blocks, x)
  {
    hide Region.Aligned;
    CardFrom(gen, x, card);
    var b := e.0 - gen.start;
    assert b in blocks && b < x <= b + blocks[b].slots;
  }

  lemma CardFrom(gen: Region, x: nat, card: nat)
    requires gen.Aligned()
    ensures (gen.start + x) / CardSize == gen.start / CardSize + card <==> card * CardSize <= x < (card + 1) * CardSize
  {
    CardShift(gen.start / DeckSize * CardsPerDeck, x);
    CardShift(gen.start / DeckSize * CardsPerDeck, 0);
  }

  lemma CardShift(first: nat, x: nat)
    ensures (first * CardSize + x) / CardSize == first + x / CardSize
  {}

  ghost predicate SlotReady(done: iset<nat>, s: Store, e: Slot) {
    e.0 in s && e.0 in done && s[e.0].Live? && e.1 < |s[e.0].slots|
  }

  ghost predicate SlotDone(done: iset<nat>, s: Store, e: Slot) {
    SlotReady(done, s, e) && DoneValue(done, s[e.0].slots[e.1])
  }

  lemma KeepSlots(p: Plan, x: View, y: View, work: set<Slot>)
    requires Advances(p, x, y)
    ensures forall e :: e in work && SlotReady(p.Done(), x.store, e) ==> SlotReady(p.Done(), y.store, e)
    ensures forall e :: e in work && SlotDone(p.Done(), x.store, e) ==> SlotDone(p.Done(), y.store, e)
  {
    hide Plan.Done, SameIds;
  }

  lemma IdsKept(p: Plan, x: View, y: View)
    requires Advances(p, x, y)
    ensures SameIds(x, y)
  {}

  lemma RunningPlaced(p: Plan, o: Store, x: View, slots: set<Slot>, scan: nat)
    requires Running(p, o, x, slots, scan)
    ensures Placed(p, x.store, x.here)
  {}

  lemma WorkReady(p: Plan, s: Store, gen: Region, cards: set<nat>)
    requires forall a :: gen.Contains(a) ==> a in p.Done()
    ensures forall e :: e in CardSlots(s, gen, cards) ==> SlotReady(p.Done(), s, e)
  {}

  // Slots stay on their cards.
  lemma SameWork(p: Plan, x: View, y: View, gen: Region, card: nat)
    requires Advances(p, x, y) && (forall a :: gen.Contains(a) ==> a in p.Done())
    ensures CardSlots(x.store, gen, {card}) <= CardSlots(y.store, gen, {card})
  {
    hide Plan.Done, SameIds;
  }

  // Which remembered slots remain when the cards below `card` have been traced
  ghost function OnLaterCards(slots: set<Slot>, card: nat): set<Slot> {
    set e | e in slots && CardOf(e.0, e.1) >= card
  }

  lemma CardDone(p: Plan, o: Store, x: View, y: View, gen: Region, cards: set<nat>, slots: set<Slot>, card: nat,
                 scan: nat)
    requires Advances(p, x, y) && (forall a :: gen.Contains(a) ==> a in p.Done())
    requires Running(p, o, y, slots + OnLaterCards(CardSlots(x.store, gen, cards), card), scan)
    requires card in cards ==> forall e :: e in CardSlots(x.store, gen, {card}) ==> SlotDone(p.Done(), y.store, e)
    ensures Running(p, o, y, slots + OnLaterCards(CardSlots(x.store, gen, cards), card + 1), scan)
  {
    hide Running, Plan.Done, SameIds;
    var traced := CardSlots(x.store, gen, cards);
    var rest, fewer := OnLaterCards(traced, card), OnLaterCards(traced, card + 1);
    forall a, i |
      (a, i) in slots + rest && (a, i) !in slots + fewer && a in y.store && y.store[a].Live? && i < |y.store[a].slots|
      ensures DoneValue(p.Done(), y.store[a].slots[i])
    {
      assert CardOf(a, i) == card && (a, i) in CardSlots(x.store, gen, cards);
      assert (a, i) in CardSlots(x.store, gen, {card});
      assert SlotDone(p.Done(), y.store, (a, i));
    }
    Forget(p, o, y, slots + rest, slots + fewer, scan);
  }

  // A slot lies on a card of its object's space.
  lemma CardInside(gen: Region, a: nat, i: nat, size: nat)
    requires gen.Aligned() && gen.Contains(a) && a + size <= gen.end && i + 1 < size
    ensures gen.HasCard(CardOf(a, i))
  {
    CardBounds(gen.start / DeckSize, gen.end / DeckSize, a + 1 + i);
  }

  lemma CardBounds(first: nat, last: nat, x: nat)
    requires DeckSize * first <= x < DeckSize * last
    ensures DeckSize * first / CardSize == CardsPerDeck * first && DeckSize * last / CardSize == CardsPerDeck * last
    ensures CardsPerDeck * first <= x / CardSize < CardsPerDeck * last
  {
    assert DeckSize * first == CardSize * (CardsPerDeck * first) && DeckSize * last == CardSize * (CardsPerDeck * last);
  }

  lemma DisjointCards(x: Region, y: Region, k: nat)
    requires x.Aligned() && y.Aligned() && Disjoint(x, y) && x.HasCard(k)
    ensures !y.HasCard(k)
  {}

  lemma NoCardsLeft(p: Plan, s: Store, here: nat, gen: Region, cards: set<nat>)
    requires Placed(p, s, here) && gen in {p.nursery, p.aging, p.semispace, p.tenured}
    ensures OnLaterCards(CardSlots(s, gen, cards), gen.end / CardSize) == {}
    ensures OnLaterCards(CardSlots(s, gen, cards), gen.start / CardSize) == CardSlots(s, gen, cards)
  {
    hide Region.Aligned, CardOf;
    forall e | e in CardSlots(s, gen, cards) ensures gen.HasCard(CardOf(e.0, e.1)) {
      assert p.Fits(e.0, s[e.0].size);
      CardInside(gen, e.0, e.1, s[e.0].size);
    }
  }

  // Only marks of the traced space are cleared; the aging marks only if asked for.
  ghost predicate CardsKept(n: set<nat>, g: set<nat>, n': set<nat>, g': set<nat>, gen: Region, all: bool) {
    && (forall k :: k in n && !gen.HasCard(k) ==> k in n')
    && (forall k :: k in g && !(all && gen.HasCard(k)) ==> k in g')
  }

  ghost predicate SameFrom(x: set<nat>, y: set<nat>, from: nat) {
    forall k :: from <= k ==> (k in x <==> k in y)
  }

  // No mark outside the space has been cleared, and aging marks only if asked for.
  ghost predicate MarksKept(m: Marks, m': Marks, gen: Region, all: bool) {
    && (forall k :: k in m.cardsNursery && !gen.HasCard(k) ==> k in m'.cardsNursery)
    && (forall k :: k in m.decksNursery && !gen.HasDeck(k) ==> k in m'.decksNursery)
    && (forall k :: k in m.cardsAging && !(all && gen.HasCard(k)) ==> k in m'.cardsAging)
    && (forall k :: k in m.decksAging && !(all && gen.HasDeck(k)) ==> k in m'.decksAging)
  }

  lemma DeckOfCard(gen: Region, k: nat)
    requires gen.Aligned()
    ensures gen.HasCard(k) <==> gen.HasDeck(k / CardsPerDeck)
  {}

  lemma MarksKeptCards(m: Marks, m': Marks, gen: Region, all: bool)
    requires MarksKept(m, m', gen, all) && gen.Aligned()
    ensures CardsKept(m.Nursery(), m.Aging(), m'.Nursery(), m'.Aging(), gen, all)
  {
    forall k: nat ensures gen.HasCard(k) <==> gen.HasDeck(k / CardsPerDeck) {
      DeckOfCard(gen, k);
    }
  }

  // The scan has reached `card`; inside a deck, `active` says whether the deck was marked.
  ghost predicate ScanState(m: Marks, m': Marks, gen: Region, nurseryMask: bool, all: bool, card: nat, active: bool) {
    && gen.Aligned() && MarksKept(m, m', gen, all)
    && SameFrom(if nurseryMask then m.cardsNursery else m.cardsAging,
                if nurseryMask then m'.cardsNursery else m'.cardsAging, card)
    && SameFrom(if nurseryMask then m.decksNursery else m.decksAging,
                if nurseryMask then m'.decksNursery else m'.decksAging,
                (card + CardsPerDeck - 1) / CardsPerDeck)
    && (card % CardsPerDeck != 0 ==> (active <==> m.DeckMarked(card / CardsPerDeck, nurseryMask)))
    && ScannedCleared(m, m', gen, nurseryMask, card)
  }

  // The decks entered are unmarked now, and so are the cards scanned.
  ghost predicate ScannedCleared(m: Marks, m': Marks, gen: Region, nurseryMask: bool, card: nat) {
    && (forall d: nat :: gen.HasDeck(d) && d < (card + CardsPerDeck - 1) / CardsPerDeck ==>
          !m'.DeckMarked(d, nurseryMask))
    && (forall k: nat :: gen.HasCard(k) && k < card && k in (if nurseryMask then m.Nursery() else m.Aging()) ==>
          !m'.CardMarked(k, nurseryMask))
  }

  lemma ScanStart(m: Marks, gen: Region, nurseryMask: bool, all: bool, active: bool)
    requires gen.Aligned()
    ensures ScanState(m, m, gen, nurseryMask, all, gen.start / CardSize, active)
  {}

  lemma ScanKept(m: Marks, m': Marks, gen: Region, nurseryMask: bool, all: bool, card: nat, active: bool)
    requires ScanState(m, m', gen, nurseryMask, all, card, active)
    ensures CardsKept(m.Nursery(), m.Aging(), m'.Nursery(), m'.Aging(), gen, all)
  {
    MarksKeptCards(m, m', gen, all);
  }

  // At a card: whether it is scanned, and the state after it
  lemma ScanStep(m: Marks, m': Marks, gen: Region, nurseryMask: bool, all: bool, card: nat, active: bool)
    requires ScanState(m, m', gen, nurseryMask, all, card, active) && gen.HasCard(card) && (nurseryMask || all)
    ensures var deck := card / CardsPerDeck;
            var enter := card % CardsPerDeck == 0;
            var active' := if enter then m'.DeckMarked(deck, nurseryMask) else active;
            var n := if enter && active' then m'.ClearDeck(deck, all) else m';
            && (card in (if nurseryMask then m.Nursery() else m.Aging())
                <==> active' && n.CardMarked(card, nurseryMask))
            && (!(active' && n.CardMarked(card, nurseryMask)) ==>
                  ScanState(m, n, gen, nurseryMask, all, card + 1, active'))
            && ScanState(m, n.ClearCard(card, all), gen, nurseryMask, all, card + 1, active')
  {
    hide ScannedCleared;
    DeckOfCard(gen, card);
    DeckStep(card);
    ClearedStep(m, m', gen, nurseryMask, all, card);
  }

  lemma ClearedStep(m: Marks, m': Marks, gen: Region, nurseryMask: bool, all: bool, card: nat)
    requires ScannedCleared(m, m', gen, nurseryMask, card) && (nurseryMask || all)
    ensures var deck := card / CardsPerDeck;
            var enter := card % CardsPerDeck == 0;
            var n := if enter && m'.DeckMarked(deck, nurseryMask) then m'.ClearDeck(deck, all) else m';
            && ScannedCleared(m, n.ClearCard(card, all), gen, nurseryMask, card + 1)
            && (card !in (if nurseryMask then m.Nursery() else m.Aging()) ==>
                  ScannedCleared(m, n, gen, nurseryMask, card + 1))
  {
    hide Marks.Nursery, Marks.Aging;
    DeckStep(card);
  }

  lemma ScanEnd(m: Marks, m': Marks, gen: Region, nurseryMask: bool, all: bool, active: bool)
    requires ScanState(m, m', gen, nurseryMask, all, gen.end / CardSize, active)
    ensures forall k :: gen.HasCard(k) ==> k !in (if nurseryMask then m'.Nursery() else m'.Aging())
    ensures forall k :: gen.HasCard(k) && k in (if nurseryMask then m.Nursery() else m.Aging()) ==>
      !m'.CardMarked(k, nurseryMask)
  {
    forall k: nat | gen.HasCard(k)
      ensures gen.HasDeck(k / CardsPerDeck)
      ensures k / CardsPerDeck < (gen.end / CardSize + CardsPerDeck - 1) / CardsPerDeck
    {
      DeckOfCard(gen, k);
      DeckBelow(k, gen.end / CardSize);
    }
  }

  lemma DeckBelow(k: nat, end: nat)
    requires k < end
    ensures k / CardsPerDeck < (end + CardsPerDeck - 1) / CardsPerDeck
  {}

  lemma DeckStep(card: nat)
    ensures (card + CardsPerDeck) / CardsPerDeck == card / CardsPerDeck + 1
    ensures card % CardsPerDeck == 0 ==> (card + CardsPerDeck - 1) / CardsPerDeck == card / CardsPerDeck
    ensures card % CardsPerDeck != 0 ==> (card + CardsPerDeck - 1) / CardsPerDeck == card / CardsPerDeck + 1
    ensures (card + 1) % CardsPerDeck != 0 ==> (card + 1) / CardsPerDeck == card / CardsPerDeck
  {}

  lemma GenAligned(p: Plan, s: Store, here: nat, gen: Region)
    requires Placed(p, s, here) && gen in {p.nursery, p.aging, p.semispace, p.tenured}
    ensures gen.Aligned()
  {}

  lemma ClearedCards(m: Marks, gen: Region)
    requires gen.Aligned()
    ensures var n := m.Cleared(gen);
            && CardsKept(m.Nursery(), m.Aging(), n.Nursery(), n.Aging(), gen, true)
            && forall k :: gen.HasCard(k) ==> k !in n.Nursery() && k !in n.Aging()
  {
    MarksKeptCards(m, m.Cleared(gen), gen, true);
  }

  // ----- what holds between collections and between attempts

  ghost predicate AllLive(s: Store) { forall a :: a in s ==> s[a].Live? }

  ghost predicate NoneIn(s: Store, r: Region) { forall a :: a in s ==> !r.Contains(a) }

  ghost predicate HasPointer(s: Store, a: nat, i: int) {
    a in s && s[a].Live? && 0 <= i < |s[a].slots| && s[a].slots[i].Pointer?
  }

  // Tenured slots that refer to younger objects are on cards marked for aging.
  ghost predicate YoungCovered(s: Store, tenured: Region, cards: set<nat>) {
    forall a, i :: tenured.Contains(a) && HasPointer(s, a, i) && !tenured.Contains(s[a].slots[i].address) ==>
      CardOf(a, i) in cards
  }

  // Slots of older objects that refer to the nursery are on cards marked for the nursery.
  ghost predicate NurseryCovered(s: Store, nursery: Region, cards: set<nat>) {
    forall a, i :: !nursery.Contains(a) && HasPointer(s, a, i) && nursery.Contains(s[a].slots[i].address) ==>
      CardOf(a, i) in cards
  }

  // The state from which the next attempt starts: the original heap o with some objects already moved
  ghost predicate Restartable(p: Plan, o: Store, originals: seq<Value>, x: View, roots: seq<Value>,
                              cardsAging: set<nat>) {
    && Placed(p, x.store, x.here) && Iso(o, x.store, x.id, x.stamp) && RootsMatch(x.id, roots, originals)
    && (forall a :: a in x.store && p.tenured.Contains(a) ==> x.store[a].Live?)
    && YoungCovered(x.store, p.tenured, cardsAging) && x.stack == []
  }

  lemma TenuredDone(p: Plan, a: nat)
    requires p.Spaces() && p.tenured.Contains(a)
    ensures a in p.Done()
  {}

  lemma YoungKept(p: Plan, o: Store, x: View, y: View, cards: set<nat>)
    requires p.copier != FromTenuredRefsCopier && p.Spaces() && Advances(p, x, y)
    requires YoungCovered(x.store, p.tenured, cards)
    ensures YoungCovered(y.store, p.tenured, cards)
  {
    hide Plan.Done, SameIds;
    forall a, i | p.tenured.Contains(a) && HasPointer(y.store, a, i) && !p.tenured.Contains(y.store[a].slots[i].address)
      ensures CardOf(a, i) in cards
    {
      TenuredDone(p, a);
      assert a in x.store;
      var v := x.store[a].slots[i];
      if v.Pointer? && p.tenured.Contains(v.address) {
        TenuredDone(p, v.address);
      }
    }
  }

  lemma YoungCards(p: Plan, s: Store, here: nat, n: set<nat>, g: set<nat>, n': set<nat>, g': set<nat>, gen: Region,
                   all: bool)
    requires Placed(p, s, here) && YoungCovered(s, p.tenured, g) && CardsKept(n, g, n', g', gen, all)
    requires all ==> gen.Aligned() && Disjoint(gen, p.tenured)
    ensures YoungCovered(s, p.tenured, g')
  {
    hide Region.Aligned, Region.HasCard, CardOf;
    forall a, i | p.tenured.Contains(a) && HasPointer(s, a, i) && !p.tenured.Contains(s[a].slots[i].address)
      ensures CardOf(a, i) in g'
    {
      assert p.Fits(a, s[a].size);
      CardInside(p.tenured, a, i, s[a].size);
      if all {
        DisjointCards(p.tenured, gen, CardOf(a, i));
      }
      assert CardOf(a, i) in g;
    }
  }

  // A collection that started from x and has not failed yet
  ghost predicate Tracing(p: Plan, o: Store, originals: seq<Value>, x: View, y: View, roots: seq<Value>,
                          cardsAging: set<nat>, slots: set<Slot>, scan: nat) {
    && Running(p, o, y, slots, scan) && Advances(p, x, y) && RootsMatch(y.id, roots, originals)
    && (p.copier != FromTenuredRefsCopier ==> YoungCovered(y.store, p.tenured, cardsAging))
  }

  lemma TracingParts(p: Plan, o: Store, originals: seq<Value>, x: View, y: View, roots: seq<Value>, cards: set<nat>,
                     slots: set<Slot>, scan: nat)
    requires Tracing(p, o, originals, x, y, roots, cards, slots, scan)
    ensures Running(p, o, y, slots, scan) && Advances(p, x, y) && p.Spaces()
    ensures y.store.Keys == y.id.Keys && y.store.Keys == y.stamp.Keys
  {}

  lemma TracingMore(p: Plan, o: Store, originals: seq<Value>, x: View, y: View, roots: seq<Value>, cards: set<nat>,
                    slots: set<Slot>, more: set<Slot>, scan: nat)
    requires Tracing(p, o, originals, x, y, roots, cards, slots, scan) && slots <= more
    ensures Tracing(p, o, originals, x, y, roots, cards, more, scan)
  {
    hide Running, YoungCovered, Advances, RootsMatch;
    MoreSlots(p, o, y, slots, more, scan);
  }

  // Clearing the marks of one space keeps the remembered slots of another.
  lemma OtherCards(p: Plan, s: Store, here: nat, n: set<nat>, g: set<nat>, n': set<nat>, g': set<nat>, gen: Region,
                   other: Region, all: bool)
    requires Placed(p, s, here) && CardsKept(n, g, n', g', gen, all) && gen == p.tenured && other == p.aging
    ensures CardSlots(s, other, n) <= CardSlots(s, other, n')
  {
    hide Region.Aligned, Region.HasCard, CardOf;
    forall e | e in CardSlots(s, other, n) ensures e in CardSlots(s, other, n') {
      assert p.Fits(e.0, s[e.0].size);
      CardInside(other, e.0, e.1, s[e.0].size);
      DisjointCards(other, gen, CardOf(e.0, e.1));
    }
  }

  ghost predicate RootsDone(p: Plan, roots: seq<Value>) {
    forall i :: 0 <= i < |roots| ==> DoneValue(p.Done(), roots[i])
  }

  // One more step that leaves the roots alone
  lemma TracingStep(p: Plan, o: Store, originals: seq<Value>, x: View, y: View, z: View, roots: seq<Value>,
                    cards: set<nat>, slots: set<Slot>, scan: nat, after: set<Slot>, scanned: nat)
    requires Tracing(p, o, originals, x, y, roots, cards, slots, scan)
    requires Running(p, o, z, after, scanned) && Advances(p, y, z)
    ensures Tracing(p, o, originals, x, z, roots, cards, after, scanned)
  {
    hide Running, YoungCovered, Advances, Plan.Done;
    AdvancesTrans(p, x, y, z);
    IdsKept(p, y, z);
    RootsKept(y, z, roots, originals);
    RunningPlaced(p, o, z, after, scanned);
    if p.copier != FromTenuredRefsCopier {
      YoungKept(p, o, y, z, cards);
    }
  }

  // Clearing marks of the traced space
  lemma TracingCards(p: Plan, o: Store, originals: seq<Value>, x: View, y: View, roots: seq<Value>,
                     n: set<nat>, g: set<nat>, n': set<nat>, g': set<nat>, gen: Region, all: bool,
                     slots: set<Slot>, scan: nat)
    requires Tracing(p, o, originals, x, y, roots, g, slots, scan) && CardsKept(n, g, n', g', gen, all)
    requires p.copier != FromTenuredRefsCopier && all ==> gen.Aligned() && Disjoint(gen, p.tenured)
    ensures Tracing(p, o, originals, x, y, roots, g', slots, scan)
  {
    hide Running, YoungCovered, Advances, Plan.Done, CardsKept;
    RunningPlaced(p, o, y, slots, scan);
    if p.copier != FromTenuredRefsCopier {
      YoungCards(p, y.store, y.here, n, g, n', g', gen, all);
    }
  }

  // Wherever a collection into aging space stops, the next attempt can start.
  lemma Stopped(p: Plan, o: Store, originals: seq<Value>, x: View, y: View, slots: set<Slot>, scan: nat,
                roots: seq<Value>, cards: set<nat>)
    requires Tracing(p, o, originals, x, y, roots, cards, slots, scan) && p.copier != FromTenuredRefsCopier
    ensures Restartable(p, o, originals, y, roots, cards)
    ensures NoneIn(x.store, p.semispace) ==> NoneIn(y.store, p.semispace)
  {
    hide Iso, Tiled, Remembered, RootsMatch, YoungCovered, Extends, SameIds;
    forall a | a in y.store && p.tenured.Contains(a) ensures y.store[a].Live? {
      TenuredDone(p, a);
    }
  }

  // ----- starting a collection

  // What the copier leaves alone may be kept.
  ghost predicate DoneIn(p: Plan, x: View, keep: set<nat>) {
    forall a :: a in x.store && a in p.Done() && a in x.id ==> x.id[a] in keep
  }

  ghost predicate TenuredIn(tenured: Region, x: View, keep: set<nat>) {
    forall a :: a in x.store && tenured.Contains(a) && a in x.id ==> x.id[a] in keep
  }

  lemma NurseryStart(p: Plan, o: Store, originals: seq<Value>, w: View, x: View, roots: seq<Value>,
                     cardsNursery: set<nat>, cardsAging: set<nat>)
    requires p.copier == NurseryCopier && Restartable(p, o, originals, w, roots, cardsAging)
    requires x == w.(todo := {}, reach := x.reach) && ClosedIn(o, x.reach) && DoneIn(p, w, x.reach)
    requires AllLive(x.store) && NoneIn(x.store, p.semispace) && NurseryCovered(x.store, p.nursery, cardsNursery)
    ensures Tracing(p, o, originals, x, x, roots, cardsAging,
                    CardSlots(x.store, p.aging, cardsNursery) + CardSlots(x.store, p.tenured, cardsNursery), x.here)
  {
    hide Iso, RootsMatch, YoungCovered, ClosedIn;
    StandStill(p, o, x, CardSlots(x.store, p.aging, cardsNursery) + CardSlots(x.store, p.tenured, cardsNursery),
               x.here);
  }

  lemma TenuredStart(p: Plan, o: Store, originals: seq<Value>, w: View, x: View, roots: seq<Value>,
                     cardsAging: set<nat>)
    requires p.copier == FromTenuredRefsCopier && Restartable(p, o, originals, w, roots, cardsAging)
    requires x == w.(todo := {}, reach := x.reach) || x == w.(todo := {}, stack := [], reach := x.reach)
    requires ClosedIn(o, x.reach) && TenuredIn(p.tenured, w, x.reach)
    ensures Tracing(p, o, originals, x, x, roots, cardsAging, {} + CardSlots(x.store, p.tenured, cardsAging), 0)
  {
    hide Iso, RootsMatch, ClosedIn;
    StandStill(p, o, x, {} + CardSlots(x.store, p.tenured, cardsAging), 0);
  }

  lemma SwapPlaced(p: Plan, s: Store, here: nat, q: Plan)
    requires Placed(p, s, here) && NoneIn(s, p.semispace)
    requires q == Plan(ToAgingCopier, p.nursery, p.semispace, p.aging, p.tenured)
    ensures Placed(q, s, q.aging.start)
  {}

  // With nothing left to promote no tenured slot refers to a younger object, and the aging spaces can swap.
  lemma AgingStart(p: Plan, o: Store, originals: seq<Value>, x: View, scan: nat, q: Plan, y: View, roots: seq<Value>,
                   cards: set<nat>)
    requires p.copier == FromTenuredRefsCopier && Running(p, o, x, {}, scan) && x.todo == {} && x.stack == []
    requires NoneIn(x.store, p.semispace)
    requires q == Plan(ToAgingCopier, p.nursery, p.semispace, p.aging, p.tenured)
    requires y == x.(here := q.aging.start, reach := y.reach) && ClosedIn(o, y.reach) && x.reach <= y.reach
    requires RootsMatch(x.id, roots, originals)
    ensures Tracing(q, o, originals, y, y, roots, cards, {}, y.here)
  {
    hide Iso, RootsMatch, Placed, ClosedIn;
    SwapPlaced(p, x.store, x.here, q);
    PlacedSpaces(p, x.store, x.here);
    StandStill(q, o, y, {}, y.here);
  }

  lemma PlacedSpaces(p: Plan, s: Store, here: nat)
    requires Placed(p, s, here)
    ensures p.Spaces() && forall a :: a in s && p.aging.Contains(a) ==> a + s[a].size <= here
  {}

  lemma MoreSlots(p: Plan, o: Store, x: View, slots: set<Slot>, more: set<Slot>, scan: nat)
    requires Running(p, o, x, slots, scan) && slots <= more
    ensures Running(p, o, x, more, scan)
  {
    hide Running, Plan.Done;
    Forget(p, o, x, slots, more, scan);
  }

  lemma CardSlotsKept(p: Plan, x: View, y: View, gen: Region, cards: set<nat>)
    requires Advances(p, x, y) && (forall a :: gen.Contains(a) ==> a in p.Done())
    ensures CardSlots(x.store, gen, cards) <= CardSlots(y.store, gen, cards)
  {
    hide Plan.Done, SameIds;
  }

  lemma OlderDone(p: Plan)
    requires p.copier == NurseryCopier && p.Spaces()
    ensures forall a :: p.aging.Contains(a) || p.tenured.Contains(a) ==> a in p.Done()
  {}

  // ----- finishing a collection: only what the copier left alone survives

  ghost predicate Survivors(p: Plan, x: View, y: View) {
    && (forall a :: a in y.store <==> a in x.store && a in p.Done())
    && (forall a :: a in y.store ==> y.store[a] == x.store[a])
    && y.store.Keys == y.id.Keys && y.store.Keys == y.stamp.Keys
    && y.store.Keys <= x.id.Keys && y.store.Keys <= x.stamp.Keys
    && (forall a :: a in y.id ==> y.id[a] == x.id[a]) && (forall a :: a in y.stamp ==> y.stamp[a] == x.stamp[a])
  }

  function Kept<T>(m: map<nat, T>, keep: set<nat>): map<nat, T> {
    map a | a in m && a in keep :: m[a]
  }

  lemma KeptSurvive(p: Plan, x: View, keep: set<nat>)
    requires x.store.Keys == x.id.Keys && x.store.Keys == x.stamp.Keys
    requires forall a :: a in keep <==> a in x.store && a in p.Done()
    ensures Survivors(p, x, x.(store := Kept(x.store, keep), id := Kept(x.id, keep), stamp := Kept(x.stamp, keep)))
  {}

  // Nothing that survives refers to anything that does not.
  lemma FinishLinked(p: Plan, o: Store, x: View, scan: nat, y: View, a: nat)
    requires Running(p, o, x, {}, scan) && x.todo == {} && Survivors(p, x, y) && a in y.store
    ensures y.store[a].Live? && Linked(o, y.store, y.id, y.stamp, a)
  {
    hide Placed, Worklist, Plan.Done;
    assert Linked(o, x.store, x.id, x.stamp, a);
    forall i | 0 <= i < |y.store[a].slots| ensures Matches(y.id, y.store[a].slots[i], o[y.id[a]].slots[i]) {
      assert DoneValue(p.Done(), x.store[a].slots[i]);
      assert Matches(x.id, x.store[a].slots[i], o[x.id[a]].slots[i]);
    }
  }

  lemma FinishIso(p: Plan, o: Store, originals: seq<Value>, x: View, scan: nat, roots: seq<Value>, y: View)
    requires Running(p, o, x, {}, scan) && x.todo == {} && Survivors(p, x, y)
    requires RootsMatch(x.id, roots, originals) && RootsDone(p, roots)
    ensures Iso(o, y.store, y.id, y.stamp) && RootsMatch(y.id, roots, originals) && AllLive(y.store)
  {
    hide Placed, Worklist, Linked, Remembered, Plan.Done;
    forall a | a in y.store ensures y.store[a].Live? && Linked(o, y.store, y.id, y.stamp, a) {
      FinishLinked(p, o, x, scan, y, a);
    }
  }

  // A completed collection: the survivors are the original heap, all live, in the spaces the copier left alone.
  lemma Finish(p: Plan, o: Store, originals: seq<Value>, w: View, x: View, scan: nat, roots: seq<Value>,
               cards: set<nat>, y: View)
    requires Tracing(p, o, originals, w, x, roots, cards, {}, scan) && x.todo == {} && Survivors(p, x, y)
    requires RootsDone(p, roots)
    requires y.here == x.here && y.stack == x.stack
    ensures Iso(o, y.store, y.id, y.stamp) && RootsMatch(y.id, roots, originals) && AllLive(y.store)
    ensures Placed(p, y.store, y.here)
    ensures forall a :: a in y.store ==> a in p.Done()
    ensures p.copier != FromTenuredRefsCopier ==> Restartable(p, o, originals, y, roots, cards)
    ensures NoneIn(w.store, p.semispace) ==> NoneIn(y.store, p.semispace)
  {
    hide Iso, RootsMatch, Tiled, Remembered, Extends, SameIds, Plan.Done, Placed;
    FinishIso(p, o, originals, x, scan, roots, y);
    FinishPlaced(p, x, y);
    PlacedSpaces(p, x.store, x.here);
  }

  // What a completed collection leaves: whatever the copier leaves alone stands where it stood, the copies are in the
  // target space, in aging space behind what was there, and all of it may be kept.
  ghost predicate Settles(p: Plan, w: View, y: View, keep: set<nat>) {
    && (forall a :: a in w.store && a in p.Done() && a in w.id ==> a in y.store && a in y.id && y.id[a] == w.id[a])
    && (forall a :: a in y.store ==> a in p.Done() && (a in w.store || p.Target().Contains(a)))
    && (p.copier != FromTenuredRefsCopier ==> forall a :: a in y.store && a !in w.store ==> w.here <= a < y.here)
    && (forall a :: a in y.store && a in y.id ==> y.id[a] in keep)
  }

  lemma FinishSettles(p: Plan, o: Store, originals: seq<Value>, w: View, x: View, slots: set<Slot>, scan: nat,
                      roots: seq<Value>, cards: set<nat>, y: View)
    requires Tracing(p, o, originals, w, x, roots, cards, slots, scan) && Survivors(p, x, y) && y.here == x.here
    ensures Settles(p, w, y, w.reach)
  {
    hide Iso, RootsMatch, Tiled, Remembered, Worklist, Apart, Plan.Spaces, Plan.Covers, Plan.Fits, ClosedIn;
    if p.copier != FromTenuredRefsCopier {
      forall a | a in y.store && a !in w.store ensures w.here <= a < y.here {
        assert p.aging.Contains(a) && a + x.store[a].size <= x.here;
      }
    }
  }

  // The worklist and what may be kept do not matter.
  lemma SameStart(p: Plan, w: View, x: View, y: View, keep: set<nat>)
    requires x == w.(todo := x.todo, stack := x.stack, reach := x.reach)
    ensures Settles(p, x, y, keep) ==> Settles(p, w, y, keep)
    ensures TenuredStays(p.tenured, x, y) ==> TenuredStays(p.tenured, w, y)
    ensures NoNewTenured(p.tenured, x, y) ==> NoNewTenured(p.tenured, w, y)
  {
    hide Plan.Done;
  }

  // Tenured objects stay where they are.
  ghost predicate TenuredStays(tenured: Region, w: View, y: View) {
    forall a :: a in w.store && tenured.Contains(a) && a in w.id ==> a in y.store && a in y.id && y.id[a] == w.id[a]
  }

  ghost predicate NoNewTenured(tenured: Region, w: View, y: View) {
    forall a :: a in y.store && tenured.Contains(a) ==> a in w.store
  }

  lemma AdvanceTenuredStays(p: Plan, w: View, y: View)
    requires p.Spaces() && Advances(p, w, y)
    ensures TenuredStays(p.tenured, w, y)
    ensures p.copier != FromTenuredRefsCopier ==> NoNewTenured(p.tenured, w, y)
  {
    hide Plan.Done;
  }

  lemma SettledTenured(p: Plan, w: View, y: View, keep: set<nat>)
    requires p.Spaces() && Settles(p, w, y, keep)
    ensures TenuredStays(p.tenured, w, y)
    ensures p.copier != FromTenuredRefsCopier ==> NoNewTenured(p.tenured, w, y)
  {
    hide Plan.Done;
    forall a | p.tenured.Contains(a) ensures a in p.Done() {
      TenuredDone(p, a);
    }
  }

  lemma TenuredInKept(tenured: Region, w: View, y: View, keep: set<nat>)
    requires TenuredIn(tenured, w, keep) && TenuredStays(tenured, w, y) && NoNewTenured(tenured, w, y)
    requires w.store.Keys == w.id.Keys
    ensures TenuredIn(tenured, y, keep)
  {}

  lemma TenuredStaysTrans(tenured: Region, x: View, y: View, z: View)
    requires TenuredStays(tenured, x, y) && TenuredStays(tenured, y, z)
    ensures TenuredStays(tenured, x, z)
  {}

  lemma YoungSurvivors(p: Plan, x: View, y: View)
    requires Survivors(p, x, y) && YoungCovered(x.store, p.tenured, {})
    ensures YoungCovered(y.store, p.tenured, {})
  {
    hide Plan.Done;
  }

  // Everything is in aging space or tenured, and may be kept.
  ghost predicate AgedOrTenured(p: Plan, y: View, keep: set<nat>) {
    && (forall a :: a in y.store ==> p.aging.Contains(a) || p.tenured.Contains(a))
    && (forall a :: a in y.store && a in y.id ==> y.id[a] in keep)
  }

  lemma SettledWhere(p: Plan, w: View, y: View, keep: set<nat>)
    requires p.copier == ToAgingCopier && Settles(p, w, y, keep)
    ensures AgedOrTenured(p, y, keep)
  {}

  lemma SameTenuredView(tenured: Region, x: View, y: View, z: View)
    requires y.store == x.store && y.id == x.id && TenuredStays(tenured, y, z)
    ensures TenuredStays(tenured, x, z)
  {}

  lemma SameTenuredIn(tenured: Region, x: View, y: View, keep: set<nat>)
    requires y.store == x.store && y.id == x.id && TenuredIn(tenured, x, keep)
    ensures TenuredIn(tenured, y, keep)
  {}

  lemma PromotedIn(p: Plan, o: Store, x: View, slots: set<Slot>, scan: nat)
    requires p.copier == FromTenuredRefsCopier && Running(p, o, x, slots, scan)
    ensures TenuredIn(p.tenured, x, x.reach)
  {
    hide Iso, Placed, DoneLive, Remembered, Worklist, ClosedIn;
  }

  lemma AgingYoung(p: Plan, o: Store, originals: seq<Value>, x: View, scan: nat, q: Plan, y: View, roots: seq<Value>)
    requires p.copier == FromTenuredRefsCopier && Running(p, o, x, {}, scan) && x.todo == {} && x.stack == []
    requires y.store == x.store
    ensures YoungCovered(y.store, p.tenured, {})
  {
    hide Iso, Placed, Worklist, ClosedIn;
  }

  lemma SettledHere(p: Plan, w: View, y: View, z: View)
    requires p.copier == FromTenuredRefsCopier && Settles(p, w, y, w.reach) && z == y.(here := z.here)
    ensures Settles(p, w, z, w.reach)
    ensures TenuredStays(p.tenured, w, y) ==> TenuredStays(p.tenured, w, z)
  {
    hide Plan.Done;
  }

  lemma FinishPlaced(p: Plan, x: View, y: View)
    requires Placed(p, x.store, x.here) && Survivors(p, x, y) && y.here == x.here
    ensures Placed(p, y.store, y.here)
  {
    hide Apart, Plan.Spaces, Plan.Covers, Plan.Fits, Plan.Done;
    ApartSame(x.store, y.store);
  }

  lemma Emptied(p: Plan, s: Store)
    requires p.Spaces() && forall a :: a in s ==> a in p.Done()
    ensures NoneIn(s, p.nursery)
    ensures p.copier == ToAgingCopier ==> NoneIn(s, p.semispace)
    ensures p.copier == FromTenuredRefsCopier ==> NoneIn(s, p.aging) && NoneIn(s, p.semispace)
  {}

  lemma TenuredIsDone(p: Plan)
    requires p.copier == FromTenuredRefsCopier
    ensures forall a :: p.tenured.Contains(a) ==> a in p.Done()
  {}

  // When everything is tenured there is nothing to remember and both aging spaces are free.
  lemma AllTenured(p: Plan, o: Store, originals: seq<Value>, x: View, y: View, roots: seq<Value>, cards: set<nat>)
    requires p.copier == FromTenuredRefsCopier && Placed(p, x.store, x.here) && Iso(o, x.store, x.id, x.stamp)
    requires RootsMatch(x.id, roots, originals)
    requires AllLive(x.store) && (forall a :: a in x.store ==> a in p.Done())
    requires y == x.(here := p.aging.start) && y.stack == []
    ensures Restartable(p, o, originals, y, roots, cards)
  {
    hide RootsMatch, Unique;
    forall a, i | p.tenured.Contains(a) && HasPointer(y.store, a, i)
      ensures p.tenured.Contains(y.store[a].slots[i].address)
    {
      SlotInStore(o, y.store, y.id, y.stamp, a, i);
    }
  }

  lemma AnyCards(p: Plan, o: Store, originals: seq<Value>, y: View, roots: seq<Value>, cards: set<nat>)
    requires Restartable(p, o, originals, y, roots, {})
    ensures Restartable(p, o, originals, y, roots, cards)
  {
    hide Iso, RootsMatch, Placed;
  }

  lemma FinishTenured(p: Plan, o: Store, originals: seq<Value>, x: View, z: View, roots: seq<Value>, cards: set<nat>,
                      w: View)
    requires p.copier == FromTenuredRefsCopier && Tracing(p, o, originals, x, z, roots, cards, {}, 0) && z.todo == {}
    requires z.stack == []
    requires Survivors(p, z, w) && RootsDone(p, roots) && w.here == z.here && w.stack == z.stack
    ensures Restartable(p, o, originals, w.(here := p.aging.start), roots, {})
    ensures AllLive(w.store) && NoneIn(w.store, p.nursery) && NoneIn(w.store, p.aging) && NoneIn(w.store, p.semispace)
  {
    hide Tracing, Iso, RootsMatch, Survivors, RootsDone, Restartable, Placed, Plan.Done, NoneIn;
    Finish(p, o, originals, x, z, 0, roots, cards, w);
    PlacedSpaces(p, w.store, w.here);
    Emptied(p, w.store);
    AllTenured(p, o, originals, w, w.(here := p.aging.start), roots, {});
  }

  lemma Promoted(p: Plan, o: Store, originals: seq<Value>, x: View, y: View, slots: set<Slot>, scan: nat,
                 roots: seq<Value>, cards: set<nat>)
    requires Tracing(p, o, originals, x, y, roots, cards, slots, scan) && p.copier == FromTenuredRefsCopier
    requires NoneIn(x.store, p.semispace)
    ensures NoneIn(y.store, p.semispace) && RootsMatch(y.id, roots, originals)
  {
    hide Iso, Worklist, Remembered, RootsMatch, Extends, SameIds, Plan.Done;
  }

  lemma AnyCopier(p: Plan, q: Plan, o: Store, originals: seq<Value>, x: View, roots: seq<Value>, cards: set<nat>)
    requires Restartable(p, o, originals, x, roots, cards) && q == p.(copier := q.copier)
    ensures Restartable(q, o, originals, x, roots, cards)
  {
    hide Iso, RootsMatch, YoungCovered;
  }

  // ----- the heap as the program sees it

  ghost predicate Closed(s: Store, roots: seq<Value>) {
    && (forall a, i :: HasPointer(s, a, i) ==> s[a].slots[i].address in s)
    && (forall i :: 0 <= i < |roots| && roots[i].Pointer? ==> roots[i].address in s)
  }

  // Before any object moves every object stands for itself.
  lemma IsoStart(s: Store, roots: seq<Value>, id: map<nat, nat>, stamp: map<nat, nat>)
    requires AllLive(s) && Closed(s, roots) && s.Keys == id.Keys && s.Keys == stamp.Keys
    requires forall a :: a in id ==> id[a] == a
    ensures Iso(s, s, id, stamp) && RootsMatch(id, roots, roots)
  {
    forall a | a in s ensures Linked(s, s, id, stamp, a) {
      forall i | 0 <= i < |s[a].slots| ensures Matches(id, s[a].slots[i], s[a].slots[i]) {
        assert s[a].slots[i].Pointer? ==> HasPointer(s, a, i);
      }
    }
  }

  lemma ClosedAfter(o: Store, originals: seq<Value>, s: Store, id: map<nat, nat>, stamp: map<nat, nat>,
                    roots: seq<Value>)
    requires Iso(o, s, id, stamp) && AllLive(s) && RootsMatch(id, roots, originals)
    ensures Closed(s, roots)
  {
    hide Unique;
    forall a, i | HasPointer(s, a, i) ensures s[a].slots[i].address in s {
      SlotInStore(o, s, id, stamp, a, i);
    }
    forall i | 0 <= i < |roots| && roots[i].Pointer? ensures roots[i].address in s {
      assert Matches(id, roots[i], originals[i]);
    }
  }

  lemma CoveredAfter(s: Store, roots: seq<Value>, nursery: Region, cards: set<nat>)
    requires Closed(s, roots) && NoneIn(s, nursery)
    ensures NurseryCovered(s, nursery, cards)
  {}

  lemma Startable(p: Plan, o: Store, x: View, roots: seq<Value>, cardsAging: set<nat>)
    requires Placed(p.(copier := NurseryCopier), o, x.here) && AllLive(o) && YoungCovered(o, p.tenured, cardsAging)
    requires x.store == o && x.stack == [] && Iso(o, o, x.id, x.stamp) && RootsMatch(x.id, roots, roots)
    ensures Restartable(p, o, roots, x, roots, cardsAging)
  {
    hide Iso, RootsMatch, YoungCovered;
  }

  lemma Restored(p: Plan, o: Store, originals: seq<Value>, x: View, roots: seq<Value>, cardsAging: set<nat>,
                 cardsNursery: set<nat>)
    requires Restartable(p, o, originals, x, roots, cardsAging) && AllLive(x.store) && NoneIn(x.store, p.nursery)
    ensures Placed(p.(copier := NurseryCopier), x.store, x.here) && Closed(x.store, roots) && x.stack == []
    ensures YoungCovered(x.store, p.tenured, cardsAging) && NurseryCovered(x.store, p.nursery, cardsNursery)
    ensures Iso(o, x.store, x.id, x.stamp) && RootsMatch(x.id, roots, originals)
    ensures p.nursery.start <= p.nursery.end && forall a :: a in x.store ==> !p.nursery.Contains(a)
  {
    hide Iso, RootsMatch, YoungCovered, NurseryCovered, AllLive, Closed;
    ClosedAfter(o, originals, x.store, x.id, x.stamp, roots);
    CoveredAfter(x.store, roots, p.nursery, cardsNursery);
  }

  // A fresh object without pointers
  lemma NewObject(p: Plan, s: Store, here: nat, at: nat, roots: seq<Value>, cardsNursery: set<nat>,
                  cardsAging: set<nat>, x: Object)
    requires Placed(p, s, here) && AllLive(s) && Closed(s, roots) && NoneIn(s, p.semispace)
    requires YoungCovered(s, p.tenured, cardsAging) && NurseryCovered(s, p.nursery, cardsNursery)
    requires x.Live? && |x.slots| < x.size && (forall i :: 0 <= i < |x.slots| ==> x.slots[i].Immediate?)
    requires at !in s && p.Covers(at) && p.Fits(at, x.size) && !p.aging.Contains(at) && !p.semispace.Contains(at)
    requires Room(s, at, x.size)
    ensures Placed(p, s[at := x], here) && AllLive(s[at := x]) && Closed(s[at := x], roots)
    ensures NoneIn(s[at := x], p.semispace)
    ensures YoungCovered(s[at := x], p.tenured, cardsAging) && NurseryCovered(s[at := x], p.nursery, cardsNursery)
  {
    hide Apart, Room;
    ApartAdd(s, at, x);
    assert forall a, i :: HasPointer(s[at := x], a, i) ==> HasPointer(s, a, i);
  }

  // Everything from the nursery's allocation pointer to its end is free.
  lemma NurseryRoom(p: Plan, s: Store, here: nat, at: nat, size: nat)
    requires Placed(p, s, here) && p.nursery.start <= at && at + size <= p.nursery.end
    requires forall a :: a in s && p.nursery.Contains(a) ==> a + s[a].size <= at
    ensures Room(s, at, size) && (size > 0 ==> at !in s)
  {
    hide Apart, Plan.Spaces, Plan.Covers, Plan.Fits;
    forall a | a in s ensures Misses(s, a, at, size) {
      if !p.nursery.Contains(a) {
        BesideNursery(p, a, s[a].size);
      }
    }
  }

  lemma BesideNursery(p: Plan, a: nat, size: nat)
    requires p.Spaces() && p.Covers(a) && p.Fits(a, size) && !p.nursery.Contains(a)
    ensures a + size <= p.nursery.start || p.nursery.end <= a
  {}

  lemma RoomIn(p: Plan, s: Store, here: nat, gen: Region, at: nat, size: nat)
    requires Placed(p, s, here) && gen in {p.nursery, p.tenured} && gen.Contains(at) && at + size <= gen.end
    ensures p.Covers(at) && p.Fits(at, size) && !p.aging.Contains(at) && !p.semispace.Contains(at)
    ensures gen == p.tenured ==> !p.nursery.Contains(at)
  {}

  lemma PlacedDisjoint(p: Plan, s: Store, here: nat)
    requires Placed(p, s, here)
    ensures forall a :: p.nursery.Contains(a) ==> !p.tenured.Contains(a)
  {}

  // Exactly these cards and their decks have been marked, for both younger generations.
  ghost predicate OnlyMarked(m: Marks, m': Marks, cards: set<nat>) {
    && m'.cardsNursery == m.cardsNursery + cards && m'.cardsAging == m.cardsAging + cards
    && m'.decksNursery == m.decksNursery + DecksOf(cards) && m'.decksAging == m.decksAging + DecksOf(cards)
  }

  ghost function DecksOf(cards: set<nat>): set<nat> { set k | k in cards :: k / CardsPerDeck }

  lemma OnlyMarkedNone(m: Marks)
    ensures OnlyMarked(m, m, {})
  {}

  lemma OnlyMarkedMore(m: Marks, m': Marks, cards: set<nat>, card: nat)
    requires OnlyMarked(m, m', cards)
    ensures OnlyMarked(m, m'.Mark(card), cards + {card})
  {
    assert forall k :: k in cards ==> k in cards + {card};
    assert DecksOf(cards + {card}) == DecksOf(cards) + {card / CardsPerDeck};
  }

  // The cards an object touches
  ghost function CardsOf(a: nat, size: nat): set<nat> { Cards(a / CardSize, (a + size + CardSize - 1) / CardSize) }

  ghost function Cards(lo: nat, hi: nat): set<nat> { set k: nat | lo <= k < hi && Between(lo, k, hi) }

  ghost predicate Between(lo: nat, k: nat, hi: nat) { lo <= k < hi }

  lemma MarkGrows(m: Marks, card: nat)
    ensures m.Mark(card).Nursery() >= m.Nursery() + {card} && m.Mark(card).Aging() >= m.Aging() + {card}
  {}

  lemma CardWithin(a: nat, x: nat, end: nat)
    requires a <= x < end
    ensures a / CardSize <= x / CardSize < (end + CardSize - 1) / CardSize
  {}

  lemma MoreCards(s: Store, nursery: Region, tenured: Region, n: set<nat>, g: set<nat>, n': set<nat>, g': set<nat>)
    requires n <= n' && g <= g' && YoungCovered(s, tenured, g) && NurseryCovered(s, nursery, n)
    ensures YoungCovered(s, tenured, g') && NurseryCovered(s, nursery, n')
  {}

  // The objects in the nursery end where it is filled to.
  ghost predicate NurseryFilled(s: Store, nursery: Region, here: nat) {
    forall a :: a in s && nursery.Contains(a) ==> a + s[a].size <= here
  }

  datatype Op = NurseryOp | AgingOp | ToTenuredOp

  // How many collections a request can lead to: each that runs out of room leads to the next larger one.
  function Attempts(op: Op): nat {
    match op
    case NurseryOp => 3
    case AgingOp => 2
    case ToTenuredOp => 1
  }

  datatype Outcome = Completed | Again | Fatal

  // Any tenured allocator: it may fail, and otherwise returns room not in use.
  method AllotTenured(store: Store, tenured: Region, size: nat) returns (ok: bool, r: nat)
    ensures ok ==> tenured.Contains(r) && r + size <= tenured.end && r !in store && Room(store, r, size)
  {
    ok, r := *, *;
    if ok {
      ok := tenured.Contains(r) && r + size <= tenured.end && r !in store && Room(store, r, size);
    }
  }

  // A size rounded up to whole decks
  function Decks(size: nat): (aligned: nat)
    ensures aligned % DeckSize == 0 && size <= aligned < size + DeckSize
  {
    (size + DeckSize - 1) / DeckSize * DeckSize
  }

  lemma InARow(p: Plan, start: nat, first: nat, second: nat, last: nat)
    requires start % DeckSize == 0 && first % DeckSize == 0 && second % DeckSize == 0 && last % DeckSize == 0
    requires p.tenured == Region(start, start + first) && p.aging == Region(start + first, start + first + second)
    requires p.semispace == Region(start + first + second, start + first + 2 * second)
    requires p.nursery == Region(start + first + 2 * second, start + first + 2 * second + last)
    ensures p.Spaces()
  {
    AlignedSum(start, first);
    AlignedSum(start + first, second);
    AlignedSum(start + first + second, second);
    AlignedSum(start + first + 2 * second, last);
  }

  lemma AlignedSum(x: nat, y: nat)
    requires x % DeckSize == 0 && y % DeckSize == 0
    ensures (x + y) % DeckSize == 0
  {}

  // start_gc_again
  function Next(op: Op): Op { if op == NurseryOp then AgingOp else ToTenuredOp }

  ghost function After(op: Op, n: nat): Op { if n == 0 then op else Next(After(op, n - 1)) }

  // An aging collection has been tried before the last one.
  ghost predicate Swapped(op: Op, last: Op) { op != ToTenuredOp && last == ToTenuredOp }

  lemma FirstOnly(op: Op, n: nat)
    ensures After(op, n) == NurseryOp ==> n == 0
    ensures Next(After(op, n)) == After(op, n + 1)
  {}

  function CopierOf(op: Op): Copier {
    match op
    case NurseryOp => NurseryCopier
    case AgingOp => ToAgingCopier
    case ToTenuredOp => FromTenuredRefsCopier
  }

  // A collection that gave up: its copier and spaces, and the state it left
  datatype Stop = Stop(plan: Plan, view: View)

  // The original heap, partly moved, with a live object still to be moved that does not fit in what is left of
  // aging space
  ghost predicate RanOut(o: Store, c: Copier, stop: Stop) {
    && stop.plan.copier == c && Iso(o, stop.view.store, stop.view.id, stop.view.stamp)
    && exists a :: a in stop.view.store && stop.view.store[a].Live? && a !in stop.plan.Done()
                   && stop.view.here + stop.view.store[a].size > stop.plan.aging.end
  }

  // ----- what a collection keeps, and where

  ghost function RootAddresses(roots: seq<Value>): set<nat> {
    set i | 0 <= i < |roots| && roots[i].Pointer? :: roots[i].address
  }

  // The objects a collection does not move: for a nursery collection those outside the nursery, otherwise the
  // tenured ones
  ghost function Older(op: Op, nursery: Region, tenured: Region, o: Store): set<nat> {
    set a | a in o && if op == NurseryOp then !nursery.Contains(a) else tenured.Contains(a)
  }

  // What a collection starts tracing from
  ghost function Seeds(op: Op, nursery: Region, tenured: Region, o: Store, roots: seq<Value>): set<nat> {
    RootAddresses(roots) + Older(op, nursery, tenured, o)
  }

  // What a nursery collection may keep, what an aging collection may promote, and what it and a collection to tenured
  // space may keep
  datatype Keeps = Keeps(nursery: set<nat>, promoted: set<nat>, all: set<nat>)

  ghost function KeepsFor(nursery: Region, tenured: Region, o: Store, roots: seq<Value>): Keeps {
    Keeps(ReachSet(o, Seeds(NurseryOp, nursery, tenured, o, roots)),
          ReachSet(o, Older(AgingOp, nursery, tenured, o)),
          ReachSet(o, Seeds(AgingOp, nursery, tenured, o, roots)))
  }

  ghost predicate KeepsOk(o: Store, originals: seq<Value>, k: Keeps) {
    && ClosedIn(o, k.nursery) && ClosedIn(o, k.promoted) && ClosedIn(o, k.all) && k.promoted <= k.all
    && RootsIn(originals, k.nursery) && RootsIn(originals, k.all)
  }

  lemma RootsSeeded(o: Store, originals: seq<Value>, seeds: set<nat>)
    requires Closed(o, originals) && RootAddresses(originals) <= seeds
    ensures RootsIn(originals, ReachSet(o, seeds))
  {
    hide ReachSet;
    forall i | 0 <= i < |originals| && originals[i].Pointer? ensures originals[i].address in ReachSet(o, seeds) {
      assert originals[i].address in RootAddresses(originals);
      SeedReached(o, seeds, originals[i].address);
    }
  }

  lemma StoreClosed(o: Store, originals: seq<Value>, seeds: set<nat>)
    requires Closed(o, originals)
    ensures ClosedIn(o, ReachSet(o, seeds))
  {
    hide ReachSet;
    assert forall b, i :: b in o && o[b].Live? && 0 <= i < |o[b].slots| && o[b].slots[i].Pointer? ==>
      HasPointer(o, b, i);
    ReachClosed(o, seeds);
  }

  // Before anything moves, what the copiers leave alone is among what they trace from.
  lemma KeepsStart(p: Plan, o: Store, originals: seq<Value>, x: View)
    requires p.copier == NurseryCopier && Closed(o, originals)
    requires x.store == o && x.id.Keys == o.Keys && forall a :: a in x.id ==> x.id[a] == a
    ensures var k := KeepsFor(p.nursery, p.tenured, o, originals);
            && KeepsOk(o, originals, k) && TenuredIn(p.tenured, x, k.promoted) && DoneIn(p, x, k.nursery)
  {
    hide ReachSet, ClosedIn, RootsIn, Closed;
    var young, old', all := Seeds(NurseryOp, p.nursery, p.tenured, o, originals),
      Older(AgingOp, p.nursery, p.tenured, o), Seeds(AgingOp, p.nursery, p.tenured, o, originals);
    StoreClosed(o, originals, young);
    StoreClosed(o, originals, old');
    StoreClosed(o, originals, all);
    RootsSeeded(o, originals, young);
    RootsSeeded(o, originals, all);
    ReachMono(o, old', all);
    forall a | a in o && p.tenured.Contains(a) ensures a in ReachSet(o, old') {
      SeedReached(o, old', a);
    }
    forall a | a in o && a in p.Done() ensures a in ReachSet(o, young) {
      SeedReached(o, young, a);
    }
  }

  lemma SameStartDone(p: Plan, q: Plan, start: View, w: View, keep: set<nat>, same: bool)
    requires DoneIn(p, start, keep) && (same ==> w == start)
    requires p.copier == NurseryCopier && q.copier == NurseryCopier && p.nursery == q.nursery
    ensures same ==> DoneIn(q, w, keep)
  {}

  lemma TenuredStaysStill(tenured: Region, x: View)
    ensures TenuredStays(tenured, x, x)
  {}

  lemma TenuredInMore(tenured: Region, x: View, keep: set<nat>, more: set<nat>)
    requires TenuredIn(tenured, x, keep) && keep <= more
    ensures TenuredIn(tenured, x, more)
  {}

  lemma RestartKeys(p: Plan, o: Store, originals: seq<Value>, x: View, roots: seq<Value>, cards: set<nat>)
    requires Restartable(p, o, originals, x, roots, cards)
    ensures x.store.Keys == x.id.Keys
  {}

  // What a completed collection of each kind leaves
  ghost predicate Result(op: Op, p: Plan, w: View, y: View, k: Keeps) {
    match op
    case NurseryOp => Settles(p, w, y, k.nursery)
    case AgingOp =>
      AgedOrTenured(p, y, k.all) && YoungCovered(y.store, p.tenured, {}) && TenuredIn(p.tenured, y, k.promoted)
    case ToTenuredOp => Settles(p, w, y, k.all) && y.here == p.aging.start
  }

  // Where the objects of the original heap are afterwards. A nursery collection leaves everything outside the nursery
  // where it was and puts the rest in aging space behind what was there; an aging collection promotes exactly what
  // tenured objects reach and puts the rest in the other half of aging space; the last resort promotes everything.
  ghost predicate Landed(op: Op, p: Plan, o: Store, here: nat, y: View) {
    && (forall a :: a in Older(op, p.nursery, p.tenured, o) ==> a in y.store && a in y.id && y.id[a] == a)
    && (forall a :: a in y.store && a in y.id ==> Place(op, p, o, here, y, a, y.id[a]))
    && (op == ToTenuredOp ==> y.here == p.aging.start)
  }

  ghost predicate Place(op: Op, p: Plan, o: Store, here: nat, y: View, a: nat, original: nat) {
    match op
    case NurseryOp =>
      if p.nursery.Contains(original) then p.aging.Contains(a) && here <= a < y.here else a == original
    case AgingOp =>
      if original in ReachSet(o, Older(AgingOp, p.nursery, p.tenured, o)) then p.tenured.Contains(a)
      else p.aging.Contains(a)
    case ToTenuredOp => p.tenured.Contains(a)
  }

  ghost predicate KeptIn(op: Op, y: View, k: Keeps) {
    forall a :: a in y.store && a in y.id ==> y.id[a] in if op == NurseryOp then k.nursery else k.all
  }

  lemma {:induction false} WalkTenured(s: Store, tenured: Region, v: Value, path: seq<nat>)
    requires YoungCovered(s, tenured, {}) && (v.Pointer? ==> tenured.Contains(v.address))
    ensures Walk(s, v, path).Reached? && Walk(s, v, path).value.Pointer? ==>
      tenured.Contains(Walk(s, v, path).value.address)
    decreases |path|
  {
    if path != [] && v.Pointer? && v.address in s && s[v.address].Live? && path[0] < |s[v.address].slots| {
      var next := s[v.address].slots[path[0]];
      assert next.Pointer? ==> HasPointer(s, v.address, path[0]);
      WalkTenured(s, tenured, next, path[1..]);
    }
  }

  // What tenured objects reach is tenured.
  lemma TenuredReached(p: Plan, o: Store, y: View, b: nat, a: nat)
    requires Iso(o, y.store, y.id, y.stamp) && AllLive(y.store) && YoungCovered(y.store, p.tenured, {})
    requires forall e :: e in Older(AgingOp, p.nursery, p.tenured, o) ==> e in y.store && e in y.id && y.id[e] == e
    requires b in ReachSet(o, Older(AgingOp, p.nursery, p.tenured, o)) && a in y.id && y.id[a] == b
    ensures p.tenured.Contains(a)
  {
    hide Walk, Linked, YoungCovered;
    var seeds := Older(AgingOp, p.nursery, p.tenured, o);
    var e, path: seq<nat>, tag :| e in seeds && Walk(o, Pointer(e, 0), path) == Reached(Pointer(b, tag));
    WalkPreserved(o, y.store, y.id, y.stamp, Pointer(e, 0), Pointer(e, 0), path);
    WalkTenured(y.store, p.tenured, Pointer(e, 0), path);
    var v := Walk(y.store, Pointer(e, 0), path).value;
    assert Matches(y.id, v, Pointer(b, tag));
    assert y.store[a].Live? && y.store[v.address].Live?;
  }

  lemma NurseryLanded(p: Plan, o: Store, start: View, y: View, keep: set<nat>)
    requires p.copier == NurseryCopier && Settles(p, start, y, keep) && Iso(o, y.store, y.id, y.stamp)
    requires AllLive(y.store)
    requires start.store == o && start.id.Keys == o.Keys && forall a :: a in start.id ==> start.id[a] == a
    ensures Landed(NurseryOp, p, o, start.here, y)
  {
    hide Linked;
    forall a | a in y.store && a in y.id ensures Place(NurseryOp, p, o, start.here, y, a, y.id[a]) {
      var b := y.id[a];
      assert Linked(o, y.store, y.id, y.stamp, a);
      LinkedOriginal(o, y.store, y.id, y.stamp, a);
      assert a in o ==> b == a;
      assert !p.nursery.Contains(b) ==> b in y.store && y.id[b] == b;
    }
  }

  lemma LinkedOriginal(o: Store, s: Store, id: map<nat, nat>, stamp: map<nat, nat>, a: nat)
    requires a in s && s.Keys == id.Keys && s.Keys == stamp.Keys && Linked(o, s, id, stamp, a)
    ensures id[a] in o
  {}

  lemma LandedFrom(op: Op, p: Plan, o: Store, originals: seq<Value>, start: View, w: View, y: View, roots: seq<Value>,
                   cards: set<nat>, k: Keeps)
    requires p.copier == CopierOf(op) && Result(op, p, w, y, k) && AllLive(y.store)
    requires Restartable(p.(copier := FromTenuredRefsCopier), o, originals, y, roots, cards)
    requires start.store == o && start.id.Keys == o.Keys && forall a :: a in start.id ==> start.id[a] == a
    requires TenuredStays(p.tenured, start, y) && (op == NurseryOp ==> w == start)
    requires k == KeepsFor(p.nursery, p.tenured, o, originals)
    ensures Landed(op, p, o, start.here, y) && KeptIn(op, y, k)
  {
    hide Iso, RootsMatch, Placed, ReachSet, Seeds, AllLive;
    if op == NurseryOp {
      NurseryLanded(p, o, start, y, k.nursery);
    } else {
      forall a | a in y.store && a in y.id ensures Place(op, p, o, start.here, y, a, y.id[a]) {
        if op == AgingOp && y.id[a] in ReachSet(o, Older(AgingOp, p.nursery, p.tenured, o)) {
          TenuredReached(p, o, y, y.id[a], a);
        }
      }
    }
  }

  // The survivors stand for exactly what the roots and the older objects reach.
  lemma ExactlyReached(op: Op, p: Plan, o: Store, originals: seq<Value>, here: nat, y: View, roots: seq<Value>,
                       k: Keeps)
    requires Iso(o, y.store, y.id, y.stamp) && AllLive(y.store) && RootsMatch(y.id, roots, originals)
    requires Landed(op, p, o, here, y) && KeptIn(op, y, k) && k == KeepsFor(p.nursery, p.tenured, o, originals)
    ensures forall b :: ReachableFrom(o, Seeds(op, p.nursery, p.tenured, o, originals), b) <==>
      exists a :: a in y.id && y.id[a] == b
  {
    hide Iso, ReachableFrom, Place;
    var seeds := Seeds(op, p.nursery, p.tenured, o, originals);
    forall e | e in seeds ensures exists a :: a in y.id && y.id[a] == e {
      if e in RootAddresses(originals) {
        var i :| 0 <= i < |originals| && originals[i].Pointer? && originals[i].address == e;
        assert Matches(y.id, roots[i], originals[i]);
      }
    }
    IsoKeys(o, y.store, y.id, y.stamp);
    assert Seeds(op, p.nursery, p.tenured, o, originals)
        == Seeds(if op == NurseryOp then NurseryOp else AgingOp, p.nursery, p.tenured, o, originals);
    forall b ensures ReachableFrom(o, seeds, b) <==> exists a :: a in y.id && y.id[a] == b {
      if ReachableFrom(o, seeds, b) {
        ReachedSurvives(o, y.store, y.id, y.stamp, seeds, b);
      }
    }
  }

  class DataHeap {
    var marks: Marks
    var store: Store
    var roots: seq<Value>
    const nursery: Region
    const tenured: Region
    var aging: Region
    var semispace: Region
    var agingHere: nat
    var nurseryHere: nat
    var markStack: seq<nat>
    // whether the tenured allocator has refused a request since the operation began
    var tenuredFull: bool
    ghost var id: map<nat, nat>
    ghost var stamp: map<nat, nat>
    ghost var todo: set<nat>
    ghost var reach: set<nat>

    // data_heap: the spaces lie one after the other, each a whole number of decks, and are empty
    constructor(base: nat, youngSize: nat, agingSize: nat, tenuredSize: nat, roots: seq<Value>)
      requires forall i :: 0 <= i < |roots| ==> roots[i].Immediate?
      ensures Valid() && store == map[] && this.roots == roots && tenured.start >= base
      ensures nursery.end - nursery.start >= youngSize && tenured.end - tenured.start >= tenuredSize
      ensures aging.end - aging.start == semispace.end - semispace.start >= agingSize
    {
      var start, young, old', size := Decks(base), Decks(youngSize), Decks(tenuredSize), Decks(agingSize);
      tenured := Region(start, start + old');
      aging := Region(start + old', start + old' + size);
      semispace := Region(start + old' + size, start + old' + 2 * size);
      nursery := Region(start + old' + 2 * size, start + old' + 2 * size + young);
      agingHere, nurseryHere := start + old', start + old' + 2 * size;
      marks, store, markStack, tenuredFull := Marks({}, {}, {}, {}), map[], [], false;
      this.roots := roots;
      id, stamp, todo, reach := map[], map[], {}, {};
      new;
      InARow(Using(NurseryCopier), start, old', size, young);
    }

    // Why a collection fails: the tenured allocator refused, or a live object does not fit in what is left of
    // aging space
    ghost predicate OutOfRoom(c: Copier)
      reads this
    {
      if c == FromTenuredRefsCopier then tenuredFull
      else exists a :: a in store && store[a].Live? && !IsDone(c, a) && agingHere + store[a].size > aging.end
    }

    ghost function Now(): View
      reads this
    {
      View(store, agingHere, markStack, id, stamp, todo, reach)
    }

    function Using(c: Copier): Plan
      reads `aging, `semispace
    {
      Plan(c, nursery, aging, semispace, tenured)
    }

    predicate IsDone(c: Copier, a: nat)
      reads `aging, `semispace
      ensures IsDone(c, a) <==> a in Using(c).Done()
    {
      match c
      case NurseryCopier => !nursery.Contains(a)
      case ToAgingCopier => aging.Contains(a) || tenured.Contains(a)
      case FromTenuredRefsCopier => tenured.Contains(a)
    }

    // fixup_data of the three copiers: follow forwarding pointers, then copy the object unless it is done.
    // On failure nothing has changed.
    method FixupData(c: Copier, pointer: nat, ghost o: Store, ghost slots: set<Slot>, ghost scan: nat)
      returns (ok: bool, r: nat)
      requires !tenuredFull
      requires Running(Using(c), o, Now(), slots, scan) && pointer in store
      requires pointer in id && id[pointer] in reach
      modifies `store, `agingHere, `markStack, `id, `stamp, `todo, `tenuredFull
      ensures !ok ==> OutOfRoom(c)
      ensures tenuredFull ==> !ok && c == FromTenuredRefsCopier
      ensures Running(Using(c), o, Now(), slots, scan) && Advances(Using(c), old(Now()), Now())
      ensures Spends(Using(c), old(Now()), Now())
      ensures forall a :: a in old(store) && IsDone(c, a) ==> a in store && store[a] == old(store)[a]
      ensures ok ==> r in store && r in Using(c).Done() && r in id && pointer in id && id[r] == id[pointer]
      ensures ok && IsDone(c, pointer) ==> r == pointer
    {
      hide Iso, Placed, DoneLive, Remembered, Worklist, Copy, Plan.Done, Advances, Spends, Traced;
      ghost var p, x := Using(c), Now();
      StandStill(p, o, x, slots, scan);
      if IsDone(c, pointer) {
        return true, pointer;
      }
      var obj := Resolve(store, pointer, o, id, stamp);
      if IsDone(c, obj) {
        return true, obj;
      }
      ok, r := CopyObject(c, obj, o, slots, scan);
    }

    // Allocate in the target space, copy the object there and leave a forwarding pointer
    method CopyObject(c: Copier, obj: nat, ghost o: Store, ghost slots: set<Slot>, ghost scan: nat)
      returns (ok: bool, r: nat)
      requires !tenuredFull
      requires Running(Using(c), o, Now(), slots, scan) && obj in store && store[obj].Live? && !IsDone(c, obj)
      requires obj in id && id[obj] in reach
      modifies `store, `agingHere, `markStack, `id, `stamp, `todo, `tenuredFull
      ensures !ok ==> OutOfRoom(c)
      ensures tenuredFull ==> !ok && c == FromTenuredRefsCopier
      ensures Running(Using(c), o, Now(), slots, scan) && Advances(Using(c), old(Now()), Now())
      ensures Spends(Using(c), old(Now()), Now())
      ensures forall a :: a in old(store) && IsDone(c, a) ==> a in store && store[a] == old(store)[a]
      ensures forall a :: a in old(id) ==> a in id && id[a] == old(id)[a]
      ensures ok ==> r in store && r in Using(c).Done() && r in id && obj in id && id[r] == id[obj]
    {
      hide Running, Copy, Plan.Done, Advances, Spends, Room;
      ghost var p, x := Using(c), Now();
      StandStill(p, o, x, slots, scan);
      var size := store[obj].size;
      if c == FromTenuredRefsCopier {
        ok, r := AllotTenured(store, tenured, size);
        if !ok {
          tenuredFull := true;
          return;
        }
        AdvanceTenured(p, o, x, slots, scan, obj, r);
        markStack := markStack + [r];
      } else {
        if agingHere + size > aging.end {
          return false, 0;
        }
        AdvanceAging(p, o, x, slots, scan, obj);
        r := agingHere;
        agingHere := agingHere + size;
      }
      CopyKeys(store, obj, r);
      CopySame(store, obj, r);
      store, id, stamp, todo := Copy(store, obj, r), id[r := id[obj]], stamp[r := stamp[obj] + 1], todo + {r};
      ok := true;
    }

    // visit_handle on slot i of object a
    method VisitSlot(c: Copier, a: nat, i: nat, ghost o: Store, ghost slots: set<Slot>, ghost scan: nat)
      returns (ok: bool)
      requires !tenuredFull
      requires Running(Using(c), o, Now(), slots, scan) && a in store && IsDone(c, a) && store[a].Live?
      requires i < |store[a].slots|
      modifies `store, `agingHere, `markStack, `id, `stamp, `todo, `tenuredFull
      ensures !ok ==> OutOfRoom(c)
      ensures tenuredFull ==> !ok && c == FromTenuredRefsCopier
      ensures Running(Using(c), o, Now(), slots, scan) && Advances(Using(c), old(Now()), Now())
      ensures Spends(Using(c), old(Now()), Now())
      ensures a in store && store[a].Live? && |store[a].slots| == |old(store)[a].slots|
      ensures ok ==> DoneValue(Using(c).Done(), store[a].slots[i])
    {
      hide Iso, Placed, DoneLive, Remembered, Worklist, Plan.Done, Advances, Spends, Traced, DataHeap.OutOfRoom;
      ghost var p, x := Using(c), Now();
      StandStill(p, o, x, slots, scan);
      var v := store[a].slots[i];
      if v.Immediate? {
        return true;
      }
      SlotInStore(o, store, id, stamp, a, i);
      SlotTraced(p, o, x, slots, scan, a, i);
      var r;
      ok, r := FixupData(c, v.address, o, slots, scan);
      if ok {
        ghost var y := Now();
        Redirect(p, o, y, slots, scan, a, i, Pointer(r, v.tag));
        AdvancesTrans(p, x, y, y.(store := SetSlot(y.store, a, i, Pointer(r, v.tag))));
        store := SetSlot(store, a, i, Pointer(r, v.tag));
      }
    }

    // visit_object: all slots of a, which are among the remembered ones
    method VisitObject(c: Copier, a: nat, n: nat, ghost o: Store, ghost slots: set<Slot>, ghost scan: nat)
      returns (ok: bool)
      requires !tenuredFull
      requires a in store && IsDone(c, a) && store[a].Live? && n == |store[a].slots|
      requires Running(Using(c), o, Now(), slots + SlotsFrom(a, 0, n), scan)
      modifies `store, `agingHere, `markStack, `id, `stamp, `todo, `tenuredFull
      ensures !ok ==> OutOfRoom(c)
      ensures tenuredFull ==> !ok && c == FromTenuredRefsCopier
      ensures Running(Using(c), o, Now(), slots + SlotsFrom(a, 0, n), scan)
      ensures Advances(Using(c), old(Now()), Now()) && Spends(Using(c), old(Now()), Now())
      ensures ok ==> Running(Using(c), o, Now(), slots, scan)
    {
      hide Running, Plan.Done, Advances, Spends, SlotsFrom, DataHeap.OutOfRoom;
      ghost var p, x, full := Using(c), Now(), slots + SlotsFrom(a, 0, n);
      StandStill(p, o, x, full, scan);
      ok := true;
      var i := 0;
      while i < n
        invariant !tenuredFull && Using(c) == p && Running(p, o, Now(), full, scan) && Advances(p, x, Now())
        invariant Spends(p, x, Now())
        invariant DoneUpTo(p.Done(), store, a, i, n)
      {
        ghost var before := Now();
        ok := VisitSlot(c, a, i, o, full, scan);
        AdvancesTrans(p, x, before, Now());
        if !ok {
          return;
        }
        KeepDone(p, before, Now(), a, i, n);
        i := i + 1;
      }
      ForgetObject(p, o, Now(), slots, scan, a, n);
    }

    // cheneys_algorithm
    method Cheney(c: Copier, from: nat, ghost o: Store, ghost slots: set<Slot>)
      returns (ok: bool, ghost left: set<Slot>, ghost scanned: nat)
      requires !tenuredFull
      requires c != FromTenuredRefsCopier && Running(Using(c), o, Now(), slots, from)
      modifies `store, `agingHere, `markStack, `id, `stamp, `todo, `tenuredFull
      ensures !tenuredFull && (!ok ==> OutOfRoom(c))
      ensures Running(Using(c), o, Now(), left, scanned) && Advances(Using(c), old(Now()), Now())
      ensures ok ==> left == slots && todo == {}
    {
      hide Running, Plan.Done, Advances, Spends, SlotsFrom, DataHeap.OutOfRoom;
      ghost var p, x := Using(c), Now();
      StandStill(p, o, x, slots, from);
      var scan := from;
      ok, left, scanned := true, slots, scan;
      while scan < agingHere
        invariant !tenuredFull && Using(c) == p && Running(p, o, Now(), slots, scan) && Advances(p, x, Now())
        invariant ok && left == slots && scanned == scan
        decreases aging.end - scan
      {
        OpenScan(p, o, Now(), slots, scan);
        ghost var before := Now();
        todo := todo - {scan};
        ghost var popped := Now();
        var size, n := store[scan].size, |store[scan].slots|;
        left, scanned := slots + SlotsFrom(scan, 0, n), scan + size;
        ok := VisitObject(c, scan, n, o, slots, scanned);
        AdvancesPopped(p, before, popped, Now());
        AdvancesTrans(p, x, before, Now());
        if !ok {
          return;
        }
        left := slots;
        scan := scan + size;
      }
      NothingLeft(p, o, Now(), slots, scan);
    }

    // visit_mark_stack
    method VisitMarkStack(ghost o: Store, ghost slots: set<Slot>, ghost scan: nat)
      returns (ok: bool, ghost left: set<Slot>)
      requires !tenuredFull
      requires Running(Using(FromTenuredRefsCopier), o, Now(), slots, scan)
      modifies `store, `agingHere, `markStack, `id, `stamp, `todo, `tenuredFull
      ensures !ok <==> tenuredFull
      ensures Running(Using(FromTenuredRefsCopier), o, Now(), left, scan)
      ensures Advances(Using(FromTenuredRefsCopier), old(Now()), Now())
      ensures ok ==> left == slots && todo == {} && markStack == []
    {
      hide Running, Plan.Done, Advances, Spends, SlotsFrom, Waiting;
      var c := FromTenuredRefsCopier;
      ghost var p, x := Using(c), Now();
      StandStill(p, o, x, slots, scan);
      ok, left := true, slots;
      while markStack != []
        invariant !tenuredFull && Using(c) == p && Running(p, o, Now(), slots, scan) && Advances(p, x, Now())
        invariant ok && left == slots
        decreases Waiting(store, p.Done()), |markStack|
      {
        var obj := markStack[|markStack| - 1];
        OpenTop(p, o, Now(), slots, scan, obj);
        ghost var before := Now();
        markStack := markStack[..|markStack| - 1];
        todo := todo - {obj};
        ghost var popped := Now();
        var n := |store[obj].slots|;
        left := slots + SlotsFrom(obj, 0, n);
        ok := VisitObject(c, obj, n, o, slots, scan);
        AdvancesPopped(p, before, popped, Now());
        AdvancesTrans(p, x, before, Now());
        if !ok {
          return;
        }
        left := slots;
      }
      NothingLeft(p, o, Now(), slots, scan);
    }

    // visit_all_roots
    method VisitRoots(c: Copier, ghost o: Store, ghost originals: seq<Value>, ghost slots: set<Slot>, ghost scan: nat)
      returns (ok: bool)
      requires !tenuredFull
      requires Running(Using(c), o, Now(), slots, scan) && RootsMatch(id, roots, originals)
      requires RootsIn(originals, reach)
      modifies `store, `agingHere, `markStack, `id, `stamp, `todo, `tenuredFull, `roots
      ensures !ok ==> OutOfRoom(c)
      ensures tenuredFull ==> !ok && c == FromTenuredRefsCopier
      ensures Running(Using(c), o, Now(), slots, scan) && Advances(Using(c), old(Now()), Now())
      ensures RootsMatch(id, roots, originals)
      ensures ok ==> forall i :: 0 <= i < |roots| ==> DoneValue(Using(c).Done(), roots[i])
    {
      hide Running, Plan.Done, Advances, Spends, DataHeap.OutOfRoom;
      ghost var p, x := Using(c), Now();
      StandStill(p, o, x, slots, scan);
      ok := true;
      var i := 0;
      while i < |roots|
        invariant !tenuredFull && Using(c) == p && Running(p, o, Now(), slots, scan) && Advances(p, x, Now())
        invariant i <= |roots| && RootsMatch(id, roots, originals)
        invariant forall j :: 0 <= j < i ==> DoneValue(p.Done(), roots[j])
      {
        var v := roots[i];
        if v.Pointer? {
          ghost var before := Now();
          StandStill(p, o, before, slots, scan);
          assert Matches(id, v, originals[i]);
          var r;
          ok, r := FixupData(c, v.address, o, slots, scan);
          AdvancesTrans(p, x, before, Now());
          IdsKept(p, before, Now());
          RootsKept(before, Now(), roots, originals);
          if !ok {
            return;
          }
          roots := roots[i := Pointer(r, v.tag)];
        }
        i := i + 1;
      }
    }

    // Some slots, in any order
    method VisitSet(c: Copier, work: set<Slot>, ghost o: Store, ghost slots: set<Slot>, ghost scan: nat)
      returns (ok: bool)
      requires !tenuredFull
      requires Running(Using(c), o, Now(), slots, scan)
      requires forall e :: e in work ==> SlotReady(Using(c).Done(), store, e)
      modifies `store, `agingHere, `markStack, `id, `stamp, `todo, `tenuredFull
      ensures !ok ==> OutOfRoom(c)
      ensures tenuredFull ==> !ok && c == FromTenuredRefsCopier
      ensures Running(Using(c), o, Now(), slots, scan) && Advances(Using(c), old(Now()), Now())
      ensures ok ==> forall e :: e in work ==> SlotDone(Using(c).Done(), store, e)
    {
      hide Running, Plan.Done, Advances, Spends, DataHeap.OutOfRoom;
      ghost var p, x := Using(c), Now();
      StandStill(p, o, x, slots, scan);
      ok := true;
      var rest := work;
      while rest != {}
        invariant !tenuredFull && Using(c) == p && Running(p, o, Now(), slots, scan) && Advances(p, x, Now())
        invariant rest <= work
        invariant forall e :: e in work ==> SlotReady(p.Done(), store, e) && (e in rest || SlotDone(p.Done(), store, e))
        decreases rest
      {
        var e :| e in rest;
        ghost var before := Now();
        ok := VisitSlot(c, e.0, e.1, o, slots, scan);
        AdvancesTrans(p, x, before, Now());
        if !ok {
          return;
        }
        KeepSlots(p, before, Now(), work);
        rest := rest - {e};
      }
    }

    // visit_cards: trace the slots on the marked cards of a space, clearing marks first
    method VisitCards(c: Copier, gen: Region, nurseryMask: bool, unmaskAll: bool, ghost o: Store,
                      ghost slots: set<Slot>, ghost scan: nat)
      returns (ok: bool, ghost left: set<Slot>)
      requires !tenuredFull
      requires nurseryMask || unmaskAll
      requires gen in {nursery, aging, semispace, tenured} && (forall a :: gen.Contains(a) ==> IsDone(c, a))
      requires Running(Using(c), o, Now(),
                       slots + CardSlots(store, gen, if nurseryMask then marks.Nursery() else marks.Aging()), scan)
      modifies `store, `agingHere, `markStack, `id, `stamp, `todo, `tenuredFull, `marks
      ensures !ok ==> OutOfRoom(c)
      ensures tenuredFull ==> !ok && c == FromTenuredRefsCopier
      ensures Running(Using(c), o, Now(), left, scan) && Advances(Using(c), old(Now()), Now())
      ensures ok ==> left == slots
      ensures CardsKept(old(marks.Nursery()), old(marks.Aging()), marks.Nursery(), marks.Aging(), gen, unmaskAll)
      ensures ok ==> forall k :: gen.HasCard(k) ==> k !in (if nurseryMask then marks.Nursery() else marks.Aging())
      ensures ok ==> forall k :: gen.HasCard(k) && k in old(if nurseryMask then marks.Nursery() else marks.Aging()) ==>
        !marks.CardMarked(k, nurseryMask)
    {
      hide Running, Plan.Done, Advances, CardSlots, OnLaterCards, ScanState, CardsKept, Marks.Nursery, Marks.Aging;
      hide DataHeap.OutOfRoom;
      ghost var p, x, before := Using(c), Now(), marks;
      ghost var cards := if nurseryMask then marks.Nursery() else marks.Aging();
      RunningPlaced(p, o, x, slots + CardSlots(store, gen, cards), scan);
      NoCardsLeft(p, store, agingHere, gen, cards);
      StandStill(p, o, x, slots + CardSlots(store, gen, cards), scan);
      GenAligned(p, store, agingHere, gen);
      ok := true;
      var card, active := gen.start / CardSize, false;
      ScanStart(marks, gen, nurseryMask, unmaskAll, active);
      left := slots + OnLaterCards(CardSlots(x.store, gen, cards), card);
      while card < gen.end / CardSize
        invariant !tenuredFull && Using(c) == p && ok && gen.start / CardSize <= card <= gen.end / CardSize
        invariant left == slots + OnLaterCards(CardSlots(x.store, gen, cards), card)
        invariant Running(p, o, Now(), left, scan) && Advances(p, x, Now())
        invariant ScanState(before, marks, gen, nurseryMask, unmaskAll, card, active)
      {
        var marked;
        active, marked := TakeMarks(card, active, gen, nurseryMask, unmaskAll, before);
        if marked {
          ok, left := VisitCard(c, gen, card, cards, o, x, slots, scan);
          if !ok {
            return;
          }
        } else {
          CardDone(p, o, x, Now(), gen, cards, slots, card, scan);
          left := slots + OnLaterCards(CardSlots(x.store, gen, cards), card + 1);
        }
        card := card + 1;
      }
      ScanKept(before, marks, gen, nurseryMask, unmaskAll, card, active);
      ScanEnd(before, marks, gen, nurseryMask, unmaskAll, active);
      assert left == slots;
    }

    // The marks of one card, and on entering a deck those of the deck, are read and cleared.
    method TakeMarks(card: nat, active: bool, gen: Region, nurseryMask: bool, unmaskAll: bool, ghost before: Marks)
      returns (active': bool, marked: bool)
      requires ScanState(before, marks, gen, nurseryMask, unmaskAll, card, active) && gen.HasCard(card)
      requires nurseryMask || unmaskAll
      modifies `marks
      ensures ScanState(before, marks, gen, nurseryMask, unmaskAll, card + 1, active')
      ensures marked <==> card in (if nurseryMask then before.Nursery() else before.Aging())
      ensures CardsKept(before.Nursery(), before.Aging(), marks.Nursery(), marks.Aging(), gen, unmaskAll)
    {
      hide ScanState, CardsKept, Marks.Nursery, Marks.Aging, Region.HasCard;
      ScanStep(before, marks, gen, nurseryMask, unmaskAll, card, active);
      active' := active;
      if card % CardsPerDeck == 0 {
        active' := marks.DeckMarked(card / CardsPerDeck, nurseryMask);
        if active' {
          marks := marks.ClearDeck(card / CardsPerDeck, unmaskAll);
        }
      }
      marked := active' && marks.CardMarked(card, nurseryMask);
      if marked {
        marks := marks.ClearCard(card, unmaskAll);
      }
      ScanKept(before, marks, gen, nurseryMask, unmaskAll, card + 1, active');
    }

    // visit_card: the slots on one card
    method VisitCard(c: Copier, gen: Region, card: nat, ghost cards: set<nat>, ghost o: Store, ghost x: View,
                     ghost slots: set<Slot>, ghost scan: nat)
      returns (ok: bool, ghost left: set<Slot>)
      requires !tenuredFull
      requires (forall a :: gen.Contains(a) ==> IsDone(c, a)) && Advances(Using(c), x, Now())
      requires Running(Using(c), o, Now(), slots + OnLaterCards(CardSlots(x.store, gen, cards), card), scan)
      modifies `store, `agingHere, `markStack, `id, `stamp, `todo, `tenuredFull
      ensures !ok ==> OutOfRoom(c)
      ensures tenuredFull ==> !ok && c == FromTenuredRefsCopier
      ensures Running(Using(c), o, Now(), left, scan) && Advances(Using(c), x, Now())
      ensures ok ==> left == slots + OnLaterCards(CardSlots(x.store, gen, cards), card + 1)
    {
      hide Running, Plan.Done, Advances, CardSlots, OnLaterCards, DataHeap.OutOfRoom;
      ghost var p, before := Using(c), Now();
      var work := CardSlots(store, gen, {card});
      WorkReady(p, store, gen, {card});
      SameWork(p, x, before, gen, card);
      left := slots + OnLaterCards(CardSlots(x.store, gen, cards), card);
      ok := VisitSet(c, work, o, left, scan);
      AdvancesTrans(p, x, before, Now());
      if ok {
        CardDone(p, o, x, Now(), gen, cards, slots, card, scan);
        left := slots + OnLaterCards(CardSlots(x.store, gen, cards), card + 1);
      }
    }

    // Flushing the spaces the copier emptied: what it would still have moved is gone
    method Discard(c: Copier)
      requires store.Keys == id.Keys && store.Keys == stamp.Keys
      modifies `store, `id, `stamp, `nurseryHere
      ensures Survivors(Using(c), old(Now()), Now()) && nurseryHere == nursery.start
    {
      hide Survivors;
      var keep := set a | a in store && IsDone(c, a);
      KeptSurvive(Using(c), Now(), keep);
      store := Kept(store, keep);
      id, stamp := Kept(id, keep), Kept(stamp, keep);
      nurseryHere := nursery.start;
    }

    // Roots, then cards, then the worklist: the steps of every collection, keeping what a retry needs
    method TraceRoots(c: Copier, ghost o: Store, ghost originals: seq<Value>, ghost x: View, ghost slots: set<Slot>,
                      ghost scan: nat)
      returns (ok: bool)
      requires !tenuredFull && RootsIn(originals, reach)
      requires Tracing(Using(c), o, originals, x, Now(), roots, marks.Aging(), slots, scan)
      modifies `store, `agingHere, `markStack, `id, `stamp, `todo, `tenuredFull, `roots
      ensures !ok ==> OutOfRoom(c)
      ensures tenuredFull ==> !ok && c == FromTenuredRefsCopier
      ensures Tracing(Using(c), o, originals, x, Now(), roots, marks.Aging(), slots, scan)
      ensures ok ==> RootsDone(Using(c), roots)
    {
      hide Running, YoungCovered, Advances, Plan.Done, DataHeap.OutOfRoom;
      ghost var p, y := Using(c), Now();
      ok := VisitRoots(c, o, originals, slots, scan);
      AdvancesTrans(p, x, y, Now());
      RunningPlaced(p, o, Now(), slots, scan);
      if c != FromTenuredRefsCopier {
        YoungKept(p, o, y, Now(), marks.Aging());
      }
    }

    method TraceCards(c: Copier, gen: Region, nurseryMask: bool, unmaskAll: bool, ghost o: Store,
                      ghost originals: seq<Value>, ghost x: View, ghost slots: set<Slot>, ghost scan: nat)
      returns (ok: bool, ghost left: set<Slot>)
      requires !tenuredFull
      requires nurseryMask || unmaskAll
      requires gen in {nursery, aging, semispace, tenured} && (forall a :: gen.Contains(a) ==> IsDone(c, a))
      requires c != FromTenuredRefsCopier && unmaskAll ==> gen.Aligned() && Disjoint(gen, tenured)
      requires Tracing(Using(c), o, originals, x, Now(), roots, marks.Aging(),
                       slots + CardSlots(x.store, gen, if nurseryMask then marks.Nursery() else marks.Aging()), scan)
      modifies `store, `agingHere, `markStack, `id, `stamp, `todo, `tenuredFull, `marks
      ensures !ok ==> OutOfRoom(c)
      ensures tenuredFull ==> !ok && c == FromTenuredRefsCopier
      ensures Tracing(Using(c), o, originals, x, Now(), roots, marks.Aging(), left, scan)
      ensures CardsKept(old(marks.Nursery()), old(marks.Aging()), marks.Nursery(), marks.Aging(), gen, unmaskAll)
      ensures ok ==> left == slots
    {
      hide Tracing, Running, Advances, Plan.Done, CardSlots, CardsKept, DataHeap.OutOfRoom;
      ghost var p, y, g := Using(c), Now(), marks.Aging();
      ghost var cards := if nurseryMask then marks.Nursery() else marks.Aging();
      ghost var from, more := slots + CardSlots(x.store, gen, cards), slots + CardSlots(store, gen, cards);
      TracingParts(p, o, originals, x, y, roots, g, from, scan);
      CardSlotsKept(p, x, y, gen, cards);
      MoreSlots(p, o, y, from, more, scan);
      ok, left := VisitCards(c, gen, nurseryMask, unmaskAll, o, slots, scan);
      TracingStep(p, o, originals, x, y, Now(), roots, g, from, scan, left, scan);
      TracingCards(p, o, originals, x, Now(), roots, old(marks.Nursery()), g, marks.Nursery(), marks.Aging(), gen,
                   unmaskAll, left, scan);
    }

    // The tracing part of collect_nursery
    method TraceNursery(ghost o: Store, ghost originals: seq<Value>)
      returns (ok: bool, ghost left: set<Slot>, ghost scanned: nat)
      requires !tenuredFull && RootsIn(originals, reach)
      requires Tracing(Using(NurseryCopier), o, originals, Now(), Now(), roots, marks.Aging(),
                       CardSlots(store, aging, marks.Nursery()) + CardSlots(store, tenured, marks.Nursery()), agingHere)
      modifies `store, `agingHere, `markStack, `id, `stamp, `todo, `tenuredFull, `roots, `marks
      ensures !tenuredFull && (!ok ==> OutOfRoom(NurseryCopier))
      ensures Tracing(Using(NurseryCopier), o, originals, old(Now()), Now(), roots, marks.Aging(), left, scanned)
      ensures ok ==> left == {} && todo == {} && RootsDone(Using(NurseryCopier), roots)
    {
      hide Tracing, Running, Advances, Plan.Done, CardSlots, CardsKept, RootsDone, DataHeap.OutOfRoom;
      var c := NurseryCopier;
      ghost var p, x := Using(c), Now();
      ghost var fromAging := CardSlots(store, aging, marks.Nursery());
      ghost var fromTenured := CardSlots(store, tenured, marks.Nursery());
      var scan := agingHere;
      left, scanned := fromAging + fromTenured, scan;
      TracingParts(p, o, originals, x, x, roots, marks.Aging(), left, scan);
      OlderDone(p);
      ok := TraceRoots(c, o, originals, x, left, scan);
      if !ok {
        return;
      }
      ghost var n, g := marks.Nursery(), marks.Aging();
      ok, left := TraceCards(c, tenured, true, false, o, originals, x, fromAging, scan);
      if !ok {
        return;
      }
      RunningPlaced(p, o, x, fromAging + fromTenured, scan);
      OtherCards(p, x.store, x.here, n, g, marks.Nursery(), marks.Aging(), tenured, aging, false);
      TracingMore(p, o, originals, x, Now(), roots, marks.Aging(), left,
                  {} + CardSlots(x.store, aging, marks.Nursery()), scan);
      ok, left := TraceCards(c, aging, true, true, o, originals, x, {}, scan);
      if !ok {
        return;
      }
      ghost var y := Now();
      TracingParts(p, o, originals, x, y, roots, marks.Aging(), left, scan);
      ok, left, scanned := Cheney(c, scan, o, {});
      TracingStep(p, o, originals, x, y, Now(), roots, marks.Aging(), {}, scan, left, scanned);
    }

    // collect_nursery: copy what the roots and the marked cards reach from the nursery to aging space
    method CollectNursery(ghost o: Store, ghost originals: seq<Value>, ghost keep: set<nat>) returns (ok: bool)
      requires !tenuredFull
      requires Restartable(Using(NurseryCopier), o, originals, Now(), roots, marks.Aging())
      requires AllLive(store) && NoneIn(store, semispace) && NurseryCovered(store, nursery, marks.Nursery())
      requires ClosedIn(o, keep) && RootsIn(originals, keep) && DoneIn(Using(NurseryCopier), Now(), keep)
      modifies `reach, `store, `agingHere, `markStack, `id, `stamp, `todo, `tenuredFull, `roots, `marks, `nurseryHere
      ensures !tenuredFull && (!ok ==> OutOfRoom(NurseryCopier))
      ensures Restartable(Using(NurseryCopier), o, originals, Now(), roots, marks.Aging()) && NoneIn(store, semispace)
      ensures ok ==> AllLive(store) && NoneIn(store, nursery) && nurseryHere == nursery.start
      ensures ok ==> Settles(Using(NurseryCopier), old(Now()), Now(), keep)
      ensures TenuredStays(tenured, old(Now()), Now()) && NoNewTenured(tenured, old(Now()), Now())
    {
      hide Restartable, Tracing, Running, Advances, Plan.Done, NurseryCovered, YoungCovered, AllLive, NoneIn;
      hide RootsMatch;
      hide CardSlots, Survivors, RootsDone, Settles, ClosedIn, RootsIn, DoneIn, TenuredStays, NoNewTenured;
      ghost var p, x := Using(NurseryCopier), Now().(todo := {}, reach := keep);
      todo, reach := {}, keep;
      NurseryStart(p, o, originals, old(Now()), x, roots, marks.Nursery(), marks.Aging());
      ghost var left, scanned;
      ok, left, scanned := TraceNursery(o, originals);
      ghost var y := Now();
      Stopped(p, o, originals, x, y, left, scanned, roots, marks.Aging());
      TracingParts(p, o, originals, x, y, roots, marks.Aging(), left, scanned);
      AdvanceTenuredStays(p, x, y);
      if ok {
        TracingParts(p, o, originals, x, y, roots, marks.Aging(), left, scanned);
        Discard(NurseryCopier);
        Finish(p, o, originals, x, y, scanned, roots, marks.Aging(), Now());
        FinishSettles(p, o, originals, x, y, left, scanned, roots, marks.Aging(), Now());
        SettledTenured(p, x, Now(), keep);
        Emptied(p, store);
      }
      SameStart(p, old(Now()), x, Now(), keep);
    }

    // The first half of collect_aging: promote what tenured objects refer to
    method PromoteTenuredRefs(ghost o: Store, ghost originals: seq<Value>, ghost keep: set<nat>) returns (ok: bool)
      requires !tenuredFull
      requires Restartable(Using(FromTenuredRefsCopier), o, originals, Now(), roots, marks.Aging())
      requires NoneIn(store, semispace)
      requires ClosedIn(o, keep) && TenuredIn(tenured, Now(), keep)
      modifies `reach, `store, `agingHere, `markStack, `id, `stamp, `todo, `tenuredFull, `marks
      ensures !ok <==> tenuredFull
      ensures ok ==> Running(Using(FromTenuredRefsCopier), o, Now(), {}, 0) && todo == {} && markStack == []
      ensures ok ==> NoneIn(store, semispace) && RootsMatch(id, roots, originals)
      ensures ok ==> reach == keep && TenuredStays(tenured, old(Now()), Now())
    {
      hide Restartable, Tracing, Running, Advances, Plan.Done, NoneIn, RootsMatch, CardSlots, CardsKept, ClosedIn;
      var c := FromTenuredRefsCopier;
      todo, reach := {}, keep;
      ghost var p, x := Using(c), Now();
      TenuredStart(p, o, originals, old(Now()), x, roots, marks.Aging());
      TenuredIsDone(p);
      ghost var left;
      ok, left := TraceCards(c, tenured, false, true, o, originals, x, {}, 0);
      if !ok {
        return;
      }
      ghost var y := Now();
      TracingParts(p, o, originals, x, y, roots, marks.Aging(), {}, 0);
      ok, left := VisitMarkStack(o, {}, 0);
      TracingStep(p, o, originals, x, y, Now(), roots, marks.Aging(), {}, 0, left, 0);
      Promoted(p, o, originals, x, Now(), left, 0, roots, marks.Aging());
      TracingParts(p, o, originals, x, Now(), roots, marks.Aging(), left, 0);
      AdvanceTenuredStays(p, x, Now());
    }

    // The second half of collect_aging: copy what the roots reach to the other aging space
    method CopyAging(ghost o: Store, ghost originals: seq<Value>) returns (ok: bool)
      requires !tenuredFull && RootsIn(originals, reach)
      requires Tracing(Using(ToAgingCopier), o, originals, Now(), Now(), roots, marks.Aging(), {}, agingHere)
      requires YoungCovered(store, tenured, {})
      modifies `store, `agingHere, `markStack, `id, `stamp, `todo, `tenuredFull, `roots, `nurseryHere
      ensures !tenuredFull && (!ok ==> OutOfRoom(ToAgingCopier))
      ensures Restartable(Using(ToAgingCopier), o, originals, Now(), roots, marks.Aging())
      ensures ok ==> AllLive(store) && NoneIn(store, nursery) && NoneIn(store, semispace)
      ensures ok ==> nurseryHere == nursery.start
      ensures ok ==> Settles(Using(ToAgingCopier), old(Now()), Now(), reach) && YoungCovered(store, tenured, {})
      ensures TenuredStays(tenured, old(Now()), Now()) && NoNewTenured(tenured, old(Now()), Now())
    {
      hide Restartable, Tracing, Running, Advances, Plan.Done, NoneIn, RootsMatch, AllLive, YoungCovered, Survivors;
      hide RootsDone, Settles, RootsIn, TenuredStays, NoNewTenured;
      var c := ToAgingCopier;
      ghost var p, x := Using(c), Now();
      var scan := agingHere;
      ghost var left, scanned := {}, scan;
      ok := TraceRoots(c, o, originals, x, {}, scan);
      if ok {
        ghost var y := Now();
        TracingParts(p, o, originals, x, y, roots, marks.Aging(), {}, scan);
        ok, left, scanned := Cheney(c, scan, o, {});
        TracingStep(p, o, originals, x, y, Now(), roots, marks.Aging(), {}, scan, left, scanned);
      }
      ghost var z := Now();
      Stopped(p, o, originals, x, z, left, scanned, roots, marks.Aging());
      TracingParts(p, o, originals, x, z, roots, marks.Aging(), left, scanned);
      AdvanceTenuredStays(p, x, z);
      if ok {
        YoungKept(p, o, x, z, {});
        TracingParts(p, o, originals, x, z, roots, marks.Aging(), left, scanned);
        Discard(c);
        Finish(p, o, originals, x, z, scanned, roots, marks.Aging(), Now());
        FinishSettles(p, o, originals, x, z, left, scanned, roots, marks.Aging(), Now());
        SettledTenured(p, x, Now(), reach);
        YoungSurvivors(p, z, Now());
        Emptied(p, store);
      }
    }

    // collect_aging; a failure of its first half is an error, of its second half a reason to try again
    method CollectAging(ghost o: Store, ghost originals: seq<Value>, ghost promoted: set<nat>, ghost keep: set<nat>)
      returns (outcome: Outcome)
      requires !tenuredFull
      requires Restartable(Using(FromTenuredRefsCopier), o, originals, Now(), roots, marks.Aging())
      requires NoneIn(store, semispace)
      requires ClosedIn(o, promoted) && TenuredIn(tenured, Now(), promoted) && promoted <= keep
      requires ClosedIn(o, keep) && RootsIn(originals, keep)
      modifies this
      ensures outcome == Again ==> OutOfRoom(ToAgingCopier)
      ensures outcome == Fatal <==> tenuredFull
      ensures outcome != Fatal ==> Restartable(Using(FromTenuredRefsCopier), o, originals, Now(), roots, marks.Aging())
      ensures outcome == Completed ==> AllLive(store) && NoneIn(store, nursery) && NoneIn(store, semispace)
      ensures outcome == Completed ==> nurseryHere == nursery.start && YoungCovered(store, tenured, {})
      ensures outcome == Completed ==> AgedOrTenured(Using(ToAgingCopier), Now(), keep)
      ensures outcome != Fatal ==> TenuredStays(tenured, old(Now()), Now()) && TenuredIn(tenured, Now(), promoted)
      ensures outcome != Fatal ==> aging == old(semispace) && semispace == old(aging)
    {
      hide Restartable, Tracing, Running, NoneIn, RootsMatch, AllLive, YoungCovered, ClosedIn, RootsIn, TenuredIn;
      hide TenuredStays, NoNewTenured, Settles, AgedOrTenured;
      var ok := PromoteTenuredRefs(o, originals, promoted);
      if !ok {
        return Fatal;
      }
      ghost var p, x := Using(FromTenuredRefsCopier), Now();
      StandStill(p, o, x, {}, 0);
      RunningPlaced(p, o, x, {}, 0);
      PromotedIn(p, o, x, {}, 0);
      GenAligned(p, store, agingHere, semispace);
      aging, semispace := semispace, aging;
      agingHere := aging.start;
      reach := keep;
      ClearCards(aging);
      AgingStart(p, o, originals, x, 0, Using(ToAgingCopier), Now(), roots, marks.Aging());
      AgingYoung(p, o, originals, x, 0, Using(ToAgingCopier), Now(), roots);
      ghost var y := Now();
      ok := CopyAging(o, originals);
      TenuredStaysTrans(tenured, old(Now()), x, Now()) by {
        SameTenuredView(tenured, x, y, Now());
      }
      TenuredInKept(tenured, y, Now(), promoted) by {
        SameTenuredIn(tenured, x, y, promoted);
      }
      if ok {
        SettledWhere(Using(ToAgingCopier), y, Now(), keep);
      }
      AnyCopier(Using(ToAgingCopier), Using(FromTenuredRefsCopier), o, originals, Now(), roots, marks.Aging());
      return if ok then Completed else Again;
    }

    // The tracing part of collect_to_tenured
    method TraceToTenured(ghost o: Store, ghost originals: seq<Value>) returns (ok: bool)
      requires !tenuredFull && RootsIn(originals, reach)
      requires Tracing(Using(FromTenuredRefsCopier), o, originals, Now(), Now(), roots, marks.Aging(),
                       {} + CardSlots(store, tenured, marks.Aging()), 0)
      modifies `store, `agingHere, `markStack, `id, `stamp, `todo, `tenuredFull, `roots, `marks
      ensures !ok <==> tenuredFull
      ensures ok ==> Tracing(Using(FromTenuredRefsCopier), o, originals, old(Now()), Now(), roots, marks.Aging(), {}, 0)
      ensures ok ==> todo == {} && markStack == [] && RootsDone(Using(FromTenuredRefsCopier), roots)
    {
      hide Tracing, Running, Advances, Plan.Done, CardSlots, CardsKept, RootsDone;
      var c := FromTenuredRefsCopier;
      ghost var p, x := Using(c), Now();
      TenuredIsDone(p);
      ok := TraceRoots(c, o, originals, x, {} + CardSlots(store, tenured, marks.Aging()), 0);
      if !ok {
        return;
      }
      ghost var left;
      ok, left := TraceCards(c, tenured, false, true, o, originals, x, {}, 0);
      if !ok {
        return;
      }
      ghost var y := Now();
      TracingParts(p, o, originals, x, y, roots, marks.Aging(), {}, 0);
      ok, left := VisitMarkStack(o, {}, 0);
      TracingStep(p, o, originals, x, y, Now(), roots, marks.Aging(), {}, 0, left, 0);
    }

    // collect_to_tenured: promote everything the roots and the marked cards reach
    method CollectToTenured(ghost o: Store, ghost originals: seq<Value>, ghost keep: set<nat>) returns (ok: bool)
      requires !tenuredFull
      requires Restartable(Using(FromTenuredRefsCopier), o, originals, Now(), roots, marks.Aging())
      requires ClosedIn(o, keep) && RootsIn(originals, keep) && TenuredIn(tenured, Now(), keep)
      modifies `reach, `store, `agingHere, `markStack, `id, `stamp, `todo, `tenuredFull, `roots, `marks, `nurseryHere
      ensures !ok <==> tenuredFull
      ensures ok ==> Restartable(Using(FromTenuredRefsCopier), o, originals, Now(), roots, marks.Aging())
      ensures ok ==> AllLive(store) && NoneIn(store, nursery) && NoneIn(store, aging) && NoneIn(store, semispace)
      ensures ok ==> nurseryHere == nursery.start
      ensures ok ==> Settles(Using(FromTenuredRefsCopier), old(Now()), Now(), keep)
      ensures ok ==> TenuredStays(tenured, old(Now()), Now()) && agingHere == aging.start
    {
      hide Restartable, Tracing, NoneIn, CardSlots, RootsDone, AllLive, ClosedIn, RootsIn, Settles, TenuredStays;
      ghost var p := Using(FromTenuredRefsCopier);
      todo, markStack, reach := {}, [], keep;
      TenuredStart(p, o, originals, old(Now()), Now(), roots, marks.Aging());
      ghost var x := Now();
      ok := TraceToTenured(o, originals);
      if ok {
        ResetYoung(o, originals, x);
        SameStart(p, old(Now()), x, Now(), keep);
      }
    }

    // After promotion: reset_nursery and reset_aging
    method ResetYoung(ghost o: Store, ghost originals: seq<Value>, ghost x: View)
      requires Tracing(Using(FromTenuredRefsCopier), o, originals, x, Now(), roots, marks.Aging(), {}, 0)
      requires todo == {} && markStack == [] && RootsDone(Using(FromTenuredRefsCopier), roots)
      modifies `store, `id, `stamp, `nurseryHere, `agingHere, `marks
      ensures Restartable(Using(FromTenuredRefsCopier), o, originals, Now(), roots, marks.Aging())
      ensures AllLive(store) && NoneIn(store, nursery) && NoneIn(store, aging) && NoneIn(store, semispace)
      ensures nurseryHere == nursery.start && Settles(Using(FromTenuredRefsCopier), x, Now(), x.reach)
      ensures TenuredStays(tenured, x, Now()) && agingHere == aging.start
    {
      hide Restartable, Tracing, NoneIn, RootsDone, AllLive, Survivors, CardsKept, Running, Advances, Plan.Done;
      hide Settles;
      ghost var p, z := Using(FromTenuredRefsCopier), Now();
      TracingParts(p, o, originals, x, z, roots, marks.Aging(), {}, 0);
      Discard(FromTenuredRefsCopier);
      FinishTenured(p, o, originals, x, z, roots, marks.Aging(), Now());
      FinishSettles(p, o, originals, x, z, {}, 0, roots, marks.Aging(), Now());
      SettledTenured(p, x, Now(), x.reach);
      ghost var w := Now();
      agingHere := aging.start;
      SettledHere(p, x, w, Now());
      ClearCards(aging);
      AnyCards(p, o, originals, Now(), roots, marks.Aging());
    }

    // clear_cards and clear_decks
    method ClearCards(gen: Region)
      requires gen.Aligned()
      modifies `marks
      ensures CardsKept(old(marks.Nursery()), old(marks.Aging()), marks.Nursery(), marks.Aging(), gen, true)
      ensures forall k :: gen.HasCard(k) ==> k !in marks.Nursery() && k !in marks.Aging()
    {
      hide Region.Aligned;
      ClearedCards(marks, gen);
      marks := marks.Cleared(gen);
    }

    // The heap between collections: whole objects that refer only to objects, and every slot from an older to a
    // younger space on a marked card
    ghost predicate Valid()
      reads this
    {
      && Placed(Using(NurseryCopier), store, agingHere) && AllLive(store) && Closed(store, roots)
      && NoneIn(store, semispace) && markStack == []
      && YoungCovered(store, tenured, marks.Aging()) && NurseryCovered(store, nursery, marks.Nursery())
      && nursery.start <= nurseryHere <= nursery.end && NurseryFilled(store, nursery, nurseryHere)
    }

    // The nursery has been emptied and nothing forwarded is left.
    ghost predicate Settled()
      reads this
    {
      AllLive(store) && NoneIn(store, nursery) && NoneIn(store, semispace) && nurseryHere == nursery.start
    }

    // What a collection relies on besides the heap being a restartable one
    ghost predicate ReadyFor(op: Op)
      reads this
    {
      && (op == NurseryOp ==> AllLive(store) && NurseryCovered(store, nursery, marks.Nursery()))
      && (op != ToTenuredOp ==> NoneIn(store, semispace))
    }

    // One collection of the given kind, from any state an earlier one stopped in
    method Attempt(op: Op, ghost o: Store, ghost originals: seq<Value>, ghost keeps: Keeps) returns (outcome: Outcome)
      requires Restartable(Using(FromTenuredRefsCopier), o, originals, Now(), roots, marks.Aging())
      requires !tenuredFull && ReadyFor(op) && KeepsOk(o, originals, keeps) && TenuredIn(tenured, Now(), keeps.promoted)
      requires op == NurseryOp ==> DoneIn(Using(NurseryCopier), Now(), keeps.nursery)
      modifies this
      ensures outcome == Fatal <==> tenuredFull
      ensures outcome != Fatal ==> Restartable(Using(FromTenuredRefsCopier), o, originals, Now(), roots, marks.Aging())
      ensures outcome == Completed ==> Settled()
      ensures outcome == Again ==> op != ToTenuredOp && ReadyFor(Next(op)) && OutOfRoom(CopierOf(op))
      ensures outcome != Fatal ==> TenuredStays(tenured, old(Now()), Now())
      ensures outcome == Fatal ==> op != NurseryOp
      ensures outcome == Again ==> TenuredIn(tenured, Now(), keeps.promoted)
      ensures outcome != Fatal ==> aging == (if op == AgingOp then old(semispace) else old(aging))
      ensures outcome != Fatal ==> semispace == (if op == AgingOp then old(aging) else old(semispace))
      ensures outcome == Completed ==> Result(op, Using(CopierOf(op)), old(Now()), Now(), keeps)
    {
      hide Restartable, AllLive, NoneIn, NurseryCovered, TenuredIn, DoneIn, TenuredStays, NoNewTenured, Settles;
      hide ClosedIn;
      hide RootsIn, AgedOrTenured, YoungCovered;
      match op
      case NurseryOp =>
        AnyCopier(Using(FromTenuredRefsCopier), Using(NurseryCopier), o, originals, Now(), roots, marks.Aging());
        RestartKeys(Using(NurseryCopier), o, originals, Now(), roots, marks.Aging());
        var ok := CollectNursery(o, originals, keeps.nursery);
        TenuredInKept(tenured, old(Now()), Now(), keeps.promoted);
        AnyCopier(Using(NurseryCopier), Using(FromTenuredRefsCopier), o, originals, Now(), roots, marks.Aging());
        return if ok then Completed else Again;
      case AgingOp =>
        outcome := CollectAging(o, originals, keeps.promoted, keeps.all);
      case ToTenuredOp =>
        TenuredInMore(tenured, Now(), keeps.promoted, keeps.all);
        var ok := CollectToTenured(o, originals, keeps.all);
        return if ok then Completed else Fatal;
    }

    // gc with the retries of start_gc_again. The collection asked for is made first, and each that runs out of room
    // in aging space leads to the next larger one. However many attempts stop half way, what is left afterwards is
    // the original heap, exactly the objects reached from the roots and the older objects, each where the last
    // collection puts it.
    method Gc(op: Op) returns (ok: bool, ghost stops: seq<Stop>, ghost last: Op)
      requires Valid()
      modifies this
      ensures !ok <==> tenuredFull
      ensures last == After(op, |stops|) && |stops| < Attempts(op) && (!ok ==> last != NurseryOp)
      ensures forall k :: 0 <= k < |stops| ==> RanOut(old(store), CopierOf(After(op, k)), stops[k])
      ensures ok ==> Valid() && NoneIn(store, nursery) && nurseryHere == nursery.start
      ensures ok ==> Iso(old(store), store, id, stamp) && RootsMatch(id, roots, old(roots))
      ensures ok ==> aging == (if last != NurseryOp && op != ToTenuredOp then old(semispace) else old(aging))
      ensures ok ==> Landed(last, Using(CopierOf(last)), old(store), old(agingHere), Now())
      ensures ok ==> forall b ::
        ReachableFrom(old(store), Seeds(last, nursery, tenured, old(store), old(roots)), b) <==>
        exists a :: a in id && id[a] == b
    {
      hide Restartable, AllLive, Closed, NoneIn, YoungCovered, NurseryCovered, Iso, RootsMatch, Placed, TenuredIn;
      hide DoneIn;
      hide TenuredStays, KeepsOk, Landed, RanOut, Seeds, ReachableFrom, KeepsFor, KeptIn;
      ghost var o, originals := store, roots;
      ghost var keeps := KeepsFor(nursery, tenured, o, originals);
      id, stamp, tenuredFull := map a | a in store :: a, map a | a in store :: 0, false;
      IsoStart(o, roots, id, stamp);
      Startable(Using(FromTenuredRefsCopier), o, Now(), roots, marks.Aging());
      KeepsStart(Using(NurseryCopier), o, originals, Now());
      ghost var here := agingHere;
      ok, stops, last := Retry(op, o, originals, keeps);
      if ok {
        Restored(Using(FromTenuredRefsCopier), o, originals, Now(), roots, marks.Aging(), marks.Nursery());
        ExactlyReached(last, Using(CopierOf(last)), o, originals, here, Now(), roots, keeps);
      }
    }

    // The loop of gc, from a heap in which nothing has moved
    method Retry(op: Op, ghost o: Store, ghost originals: seq<Value>, ghost keeps: Keeps)
      returns (ok: bool, ghost stops: seq<Stop>, ghost last: Op)
      requires Restartable(Using(FromTenuredRefsCopier), o, originals, Now(), roots, marks.Aging())
      requires store == o && id.Keys == o.Keys && (forall a :: a in id ==> id[a] == a) && !tenuredFull && ReadyFor(op)
      requires KeepsOk(o, originals, keeps) && keeps == KeepsFor(nursery, tenured, o, originals)
      requires TenuredIn(tenured, Now(), keeps.promoted) && DoneIn(Using(NurseryCopier), Now(), keeps.nursery)
      modifies this
      ensures !ok <==> tenuredFull
      ensures last == After(op, |stops|) && |stops| < Attempts(op) && (!ok ==> last != NurseryOp)
      ensures forall k :: 0 <= k < |stops| ==> RanOut(o, CopierOf(After(op, k)), stops[k])
      ensures ok ==> Restartable(Using(FromTenuredRefsCopier), o, originals, Now(), roots, marks.Aging()) && Settled()
      ensures ok ==> Halves(op != ToTenuredOp && last != NurseryOp, old(aging), old(semispace))
      ensures ok ==> Landed(last, Using(CopierOf(last)), o, old(agingHere), Now()) && KeptIn(last, Now(), keeps)
    {
      hide Restartable, AllLive, NoneIn, NurseryCovered, TenuredIn, DoneIn, TenuredStays, KeepsOk, Result, Landed;
      hide RanOut;
      hide KeepsFor, KeptIn, DataHeap.OutOfRoom, DataHeap.Settled, DataHeap.ReadyFor;
      var current := op;
      ok, stops, last := false, [], op;
      ghost var start, first := Now(), Using(NurseryCopier);
      TenuredStaysStill(tenured, start);
      while !ok
        invariant !tenuredFull && last == After(op, |stops|) && |stops| + Attempts(last) == Attempts(op)
        invariant Restartable(Using(FromTenuredRefsCopier), o, originals, Now(), roots, marks.Aging())
        invariant TenuredStays(tenured, start, Now())
        invariant !ok ==> current == last && ReadyFor(last) && TenuredIn(tenured, Now(), keeps.promoted)
        invariant !ok ==> Halves(Swapped(op, last), old(aging), old(semispace))
        invariant !ok && stops == [] ==> Now() == start
        invariant ok ==> Settled() && Halves(op != ToTenuredOp && last != NurseryOp, old(aging), old(semispace))
        invariant ok ==> Landed(last, Using(CopierOf(last)), o, start.here, Now()) && KeptIn(last, Now(), keeps)
        invariant forall k :: 0 <= k < |stops| ==> RanOut(o, CopierOf(After(op, k)), stops[k])
        decreases if ok then 0 else Attempts(current)
      {
        ghost var w := Now();
        FirstOnly(op, |stops|);
        SameStartDone(first, Using(NurseryCopier), start, w, keeps.nursery, current == NurseryOp);
        var outcome := Attempt(current, o, originals, keeps);
        if outcome == Fatal {
          return false, stops, last;
        }
        TenuredStaysTrans(tenured, start, w, Now());
        if outcome == Completed {
          SettledLive();
          LandedFrom(current, Using(CopierOf(current)), o, originals, start, w, Now(), roots, marks.Aging(), keeps);
          ok := true;
        } else {
          Stops(o, originals, current);
          stops := stops + [Stop(Using(CopierOf(current)), Now())];
          current := if current == NurseryOp then AgingOp else ToTenuredOp;
          last := current;
        }
      }
    }

    lemma SettledLive()
      requires Settled()
      ensures AllLive(store)
    {}

    ghost predicate Halves(swapped: bool, x: Region, y: Region)
      reads this
    {
      if swapped then aging == y && semispace == x else aging == x && semispace == y
    }

    lemma Stops(o: Store, originals: seq<Value>, op: Op)
      requires op != ToTenuredOp && OutOfRoom(CopierOf(op))
      requires Restartable(Using(FromTenuredRefsCopier), o, originals, Now(), roots, marks.Aging())
      ensures RanOut(o, CopierOf(op), Stop(Using(CopierOf(op)), Now()))
    {
      hide Iso, RootsMatch, Placed, YoungCovered, Plan.Done;
    }

    // write_barrier: mark the card and the deck of a slot for both younger generations
    method WriteBarrier(a: nat, i: nat)
      modifies `marks
      ensures marks.Nursery() >= old(marks.Nursery()) + {CardOf(a, i)}
      ensures marks.Aging() >= old(marks.Aging()) + {CardOf(a, i)}
      ensures OnlyMarked(old(marks), marks, {CardOf(a, i)})
    {
      marks := marks.Mark(CardOf(a, i));
    }

    // A store into a slot, with its write barrier
    method StoreSlot(a: nat, i: nat, v: Value)
      requires Valid() && a in store && i < |store[a].slots| && (v.Pointer? ==> v.address in store)
      modifies `store, `marks
      ensures Valid() && store == SetSlot(old(store), a, i, v) && OnlyMarked(old(marks), marks, {CardOf(a, i)})
    {
      hide Placed, Marks.Nursery, Marks.Aging;
      RedirectPlaced(Using(NurseryCopier), store, agingHere, a, i, v);
      store := SetSlot(store, a, i, v);
      WriteBarrier(a, i);
    }

    // write_barrier over a whole object: the cards it touches
    method MarkObject(a: nat, size: nat)
      modifies `marks
      ensures marks.Nursery() >= old(marks.Nursery()) && marks.Aging() >= old(marks.Aging())
      ensures forall i :: 0 <= i && i + 1 < size ==> CardOf(a, i) in marks.Nursery() && CardOf(a, i) in marks.Aging()
      ensures OnlyMarked(old(marks), marks, CardsOf(a, size))
    {
      hide Marks.Nursery, Marks.Aging, OnlyMarked;
      var card, end := a / CardSize, (a + size + CardSize - 1) / CardSize;
      ghost var from := card;
      OnlyMarkedNone(marks);
      ghost var done: set<nat> := {};
      while card < end
        invariant from <= card && (card <= end || done == {})
        invariant OnlyMarked(old(marks), marks, done) && done == Cards(from, card)
        invariant marks.Nursery() >= old(marks.Nursery()) && marks.Aging() >= old(marks.Aging())
        invariant forall k :: from <= k < card ==> k in marks.Nursery() && k in marks.Aging()
      {
        MarkGrows(marks, card);
        OnlyMarkedMore(old(marks), marks, done, card);
        done := done + {card};
        marks := marks.Mark(card);
        card := card + 1;
      }
      assert done == CardsOf(a, size);
      forall i | 0 <= i && i + 1 < size ensures from <= CardOf(a, i) < end {
        CardWithin(a, a + 1 + i, a + size);
      }
    }

    // A store into a new object needs no barrier: it is young, or all its cards are marked already.
    method InitializeSlot(a: nat, i: nat, v: Value)
      requires Valid() && a in store && i < |store[a].slots| && (v.Pointer? ==> v.address in store)
      requires nursery.Contains(a) || (CardOf(a, i) in marks.Nursery() && CardOf(a, i) in marks.Aging())
      modifies `store
      ensures Valid() && store == SetSlot(old(store), a, i, v)
    {
      hide Placed, Marks.Nursery, Marks.Aging;
      PlacedDisjoint(Using(NurseryCopier), store, agingHere);
      RedirectPlaced(Using(NurseryCopier), store, agingHere, a, i, v);
      store := SetSlot(store, a, i, v);
    }

    // allot_large_object, once there is room for it
    method AllotLarge(n: nat, size: nat) returns (ok: bool, r: nat)
      requires Valid() && n < size
      modifies `store, `marks, `tenuredFull
      ensures !ok <==> tenuredFull
      ensures ok ==> Valid() && r !in old(store) && store == old(store)[r := Live(seq(n, i => Immediate(0)), size)]
      ensures ok ==> tenured.Contains(r) && OnlyMarked(old(marks), marks, CardsOf(r, size))
      ensures ok ==> forall i :: 0 <= i < n ==> CardOf(r, i) in marks.Nursery() && CardOf(r, i) in marks.Aging()
    {
      hide Placed, Closed, YoungCovered, NurseryCovered, NoneIn, AllLive, Marks.Nursery, Marks.Aging, CardOf;
      ok, r := AllotTenured(store, tenured, size);
      tenuredFull := !ok;
      if !ok {
        return;
      }
      ghost var p, m := Using(NurseryCopier), marks;
      var fresh' := Live(seq(n, i => Immediate(0)), size);
      RoomIn(p, store, agingHere, tenured, r, size);
      NewObject(p, store, agingHere, r, roots, marks.Nursery(), marks.Aging(), fresh');
      store := store[r := fresh'];
      MarkObject(r, size);
      MoreCards(store, nursery, tenured, m.Nursery(), m.Aging(), marks.Nursery(), marks.Aging());
    }

    // allot_object: in the nursery, after a minor collection if it is full, or in tenured space if it is too large
    // for the nursery. The new object's n slots hold an immediate until they are initialised, for which no write
    // barrier is needed.
    method AllotObject(n: nat, size: nat) returns (ok: bool, r: nat, ghost before: Store)
      requires Valid() && n < size
      modifies this
      ensures !ok <==> tenuredFull
      ensures ok ==> Valid() && r !in before && store == before[r := Live(seq(n, i => Immediate(0)), size)]
      ensures size < nursery.end - nursery.start && old(nurseryHere) + size <= nursery.end ==>
        ok && before == old(store) && r == old(nurseryHere)
      ensures ok && size < nursery.end - nursery.start && old(nurseryHere) + size > nursery.end ==> r == nursery.start
      ensures size >= nursery.end - nursery.start ==> before == old(store) && (ok ==> tenured.Contains(r))
      ensures ok && size < nursery.end - nursery.start ==> nursery.Contains(r)
      ensures ok ==> Iso(old(store), before, id, stamp) && RootsMatch(id, roots, old(roots))
      ensures ok ==> nursery.Contains(r) || forall i :: 0 <= i < n ==>
        CardOf(r, i) in marks.Nursery() && CardOf(r, i) in marks.Aging()
    {
      hide Placed, Iso, RootsMatch, Closed, YoungCovered, NurseryCovered, NoneIn, AllLive, Marks.Nursery, Marks.Aging;
      hide CardOf;
      id, stamp := map a | a in store :: a, map a | a in store :: 0;
      IsoStart(store, roots, id, stamp);
      tenuredFull := false;
      if size >= nursery.end - nursery.start {
        before := store;
        ok, r := AllotLarge(n, size);
        return;
      }
      ok := true;
      if nurseryHere + size > nursery.end {
        ghost var stops, last;
        ok, stops, last := Gc(NurseryOp);
        if !ok {
          return false, 0, store;
        }
      }
      before := store;
      r := AllotNursery(n, size);
    }

    // bump_allocator::allot
    method AllotNursery(n: nat, size: nat) returns (r: nat)
      requires Valid() && n < size && nurseryHere + size <= nursery.end
      modifies `store, `nurseryHere
      ensures Valid() && nursery.Contains(r) && r !in old(store)
      ensures r == old(nurseryHere) && nurseryHere == r + size
      ensures store == old(store)[r := Live(seq(n, i => Immediate(0)), size)]
    {
      hide Placed, Closed, YoungCovered, NurseryCovered, NoneIn, AllLive, Marks.Nursery, Marks.Aging;
      r := nurseryHere;
      var fresh' := Live(seq(n, i => Immediate(0)), size);
      RoomIn(Using(NurseryCopier), store, agingHere, nursery, r, size);
      NurseryRoom(Using(NurseryCopier), store, agingHere, r, size);
      NewObject(Using(NurseryCopier), store, agingHere, r, roots, marks.Nursery(), marks.Aging(), fresh');
      store := store[r := fresh'];
      nurseryHere := nurseryHere + size;
    }
  }
}
