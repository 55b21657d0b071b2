/** The mark phase of a full collection over objects and code blocks: young objects are promoted, reachable tenured
    objects and code blocks are marked, each is scanned once (vm/full_collector.cpp, vm/slot_visitor.hpp). */
module Marking {
  import opened Copying
  import opened Sequences
  import C = Collector

  // ----- reachability in a heap

  ghost predicate Reachable(o: Store, roots: seq<Value>, a: nat) {
    exists k, path, tag :: 0 <= k < |roots| && Walk(o, roots[k], path) == Reached(Pointer(a, tag))
  }

  lemma RootReachable(o: Store, roots: seq<Value>, k: nat)
    requires k < |roots| && roots[k].Pointer?
    ensures Reachable(o, roots, roots[k].address)
  {
    assert Walk(o, roots[k], []) == Reached(Pointer(roots[k].address, roots[k].tag));
  }

  lemma SlotReachable(o: Store, roots: seq<Value>, a: nat, i: nat)
    requires Reachable(o, roots, a) && a in o && o[a].Live? && i < |o[a].slots| && o[a].slots[i].Pointer?
    ensures Reachable(o, roots, o[a].slots[i].address)
  {
    var k, path, tag :| 0 <= k < |roots| && Walk(o, roots[k], path) == Reached(Pointer(a, tag));
    WalkAppend(o, roots[k], path, i);
    assert Walk(o, roots[k], path + [i]) == Reached(Pointer(o[a].slots[i].address, o[a].slots[i].tag));
  }

  // ----- objects and code blocks

  // The tenured space and the code heap
  datatype Spaces = Spaces(tenured: C.Region, code: C.Region) {
    // Where nothing is moved any more
    predicate Settled(a: nat) { tenured.Contains(a) || code.Contains(a) }
  }

  // A code pointer carries no tag of its own. The slots of a word, a quotation or a callstack end with its code
  // pointers; those of a code block are its owner, parameters and relocation, its literals and its code pointers.
  const CodeTag: nat := 16

  ghost predicate TypedValue(sp: Spaces, v: Value) {
    v.Pointer? ==> (v.tag == CodeTag <==> sp.code.Contains(v.address))
  }

  // Code pointers, and only they, lead to code blocks.
  ghost predicate Typed(sp: Spaces, s: Store, roots: seq<Value>) {
    && (forall a, i :: C.HasPointer(s, a, i) ==> TypedValue(sp, s[a].slots[i]))
    && (forall i :: 0 <= i < |roots| ==> TypedValue(sp, roots[i]))
  }

  // ----- the state of the mark phase

  // The heap, the marks of both mark bitmaps, the mark stack, the objects and code blocks scanned so far in order,
  // and the identity and age of every copy
  datatype Trace =
    Trace(store: Store, marked: set<nat>, stack: seq<nat>, scanned: seq<nat>, id: map<nat, nat>, stamp: map<nat, nat>)

  ghost predicate MarkedValue(marked: set<nat>, v: Value) { v.Pointer? ==> v.address in marked }

  ghost predicate ScannedUpTo(x: Trace, a: nat, n: nat)
    requires a in x.store
  {
    x.store[a].Live? && n <= |x.store[a].slots| && forall i :: 0 <= i < n ==> MarkedValue(x.marked, x.store[a].slots[i])
  }

  // What is marked has settled and stands for something reachable in the original heap.
  ghost predicate GoodMark(sp: Spaces, o: Store, originals: seq<Value>, x: Trace, a: nat) {
    a in x.store && a in x.id && sp.Settled(a) && x.store[a].Live? && Reachable(o, originals, x.id[a])
  }

  // Tenured objects and code blocks never move.
  ghost predicate Stays(sp: Spaces, id: map<nat, nat>) {
    forall a :: a in id && (sp.code.Contains(a) || sp.Settled(id[a])) ==> id[a] == a
  }

  ghost predicate Sized(s: Store) { Apart(s) && forall a :: a in s ==> s[a].size > 0 }

  // What is marked waits on the stack or has been scanned, and nothing is scanned twice.
  ghost predicate Log(x: Trace) {
    && Distinct(x.stack) && Distinct(x.scanned)
    && (forall a :: a in x.stack ==> a in x.marked && a !in x.scanned)
    && (forall a :: a in x.scanned ==> a in x.marked)
    && (forall a :: a in x.marked ==> a in x.stack || a in x.scanned)
  }

  // What has been scanned refers only to marked things, apart from the open object, whose scan is under way.
  ghost predicate Marking(sp: Spaces, o: Store, originals: seq<Value>, x: Trace, open: set<nat>) {
    && Iso(o, x.store, x.id, x.stamp) && Typed(sp, o, originals) && Stays(sp, x.id) && Sized(x.store) && Log(x)
    && (forall a :: a in x.store && sp.Settled(a) ==> x.store[a].Live?)
    && (forall a :: a in x.marked ==> GoodMark(sp, o, originals, x, a))
    && (forall a :: a in x.scanned && a !in open && a in x.store ==> ScannedUpTo(x, a, |x.store[a].slots|))
  }

  ghost function Unmarked(x: Trace): set<nat> { set a | a in x.store && x.store[a].Live? && a !in x.marked }

  // New work uses up unmarked objects.
  ghost predicate Spent(x: Trace, y: Trace) {
    Unmarked(y) < Unmarked(x) || (Unmarked(y) == Unmarked(x) && y.stack == x.stack)
  }

  // Marks are never taken back, and what has settled keeps its contents.
  ghost predicate Grows(sp: Spaces, x: Trace, y: Trace) {
    && x.marked <= y.marked && x.store.Keys <= y.store.Keys && y.scanned == x.scanned
    && (forall a :: a in x.id ==> a in y.id && y.id[a] == x.id[a])
    && (forall a :: a in x.store && sp.Settled(a) ==> y.store[a] == x.store[a])
    && Spent(x, y)
  }

  function Push(x: Trace, a: nat): Trace { x.(marked := x.marked + {a}, stack := x.stack + [a]) }

  lemma PushLog(x: Trace, a: nat)
    requires Log(x) && a !in x.marked
    ensures Log(Push(x, a))
  {
    var y := Push(x, a);
    assert forall b :: b in y.stack <==> b in x.stack || b == a;
  }

  lemma PushStep(sp: Spaces, o: Store, originals: seq<Value>, x: Trace, a: nat, open: set<nat>)
    requires Marking(sp, o, originals, x, open)
    requires a !in x.marked && GoodMark(sp, o, originals, x, a)
    ensures Marking(sp, o, originals, Push(x, a), open) && Grows(sp, x, Push(x, a))
  {
    hide Iso, Reachable, Log, Typed, Stays, Sized;
    PushLog(x, a);
    var y := Push(x, a);
    assert a in Unmarked(x) && a !in Unmarked(y);
  }

  function Promote(x: Trace, from: nat, to: nat): Trace
    requires from in x.store && from in x.id && from in x.stamp
  {
    x.(store := Copy(x.store, from, to), id := x.id[to := x.id[from]], stamp := x.stamp[to := x.stamp[from] + 1])
  }

  // Room in tenured space for a copy of a young object
  ghost predicate CanPromote(sp: Spaces, x: Trace, from: nat, to: nat) {
    && from in x.store && x.store[from].Live? && !sp.Settled(from)
    && to !in x.store && sp.tenured.Contains(to) && !sp.code.Contains(to) && Room(x.store, to, x.store[from].size)
  }

  lemma PromoteExtents(sp: Spaces, x: Trace, from: nat, to: nat)
    requires Sized(x.store) && Stays(sp, x.id) && CanPromote(sp, x, from, to) && from in x.id
    ensures Sized(Copy(x.store, from, to)) && Stays(sp, x.id[to := x.id[from]])
  {
    hide Apart, Room;
    ApartCopy(x.store, from, to);
  }

  lemma PromoteMarks(sp: Spaces, o: Store, originals: seq<Value>, x: Trace, from: nat, to: nat, open: set<nat>)
    requires Marking(sp, o, originals, x, open) && CanPromote(sp, x, from, to) && from in x.id && from in x.stamp
    ensures Marking(sp, o, originals, Promote(x, from, to), open) && to !in x.marked
  {
    hide Reachable, Iso, Log, Typed, Stays, Sized, Room;
    CopyIso(o, x.store, x.id, x.stamp, from, to);
    PromoteExtents(sp, x, from, to);
    LogStore(x, Promote(x, from, to));
  }

  lemma LogStore(x: Trace, y: Trace)
    requires Log(x) && y.marked == x.marked && y.stack == x.stack && y.scanned == x.scanned
    ensures Log(y) && forall a :: a in x.scanned ==> a in x.marked
  {}

  // Copying an unreached young object to tenured space and marking it there
  lemma PromoteStep(sp: Spaces, o: Store, originals: seq<Value>, x: Trace, from: nat, to: nat, open: set<nat>)
    requires Marking(sp, o, originals, x, open) && CanPromote(sp, x, from, to)
    requires from in x.id && Reachable(o, originals, x.id[from])
    ensures from in x.stamp
    ensures var y := Push(Promote(x, from, to), to);
            Marking(sp, o, originals, y, open) && Grows(sp, x, y) && y.id[to] == x.id[from]
  {
    hide Marking, Reachable, Iso, Room;
    MarkingKeys(sp, o, originals, x, open);
    PromoteMarks(sp, o, originals, x, from, to, open);
    var mid := Promote(x, from, to);
    PushStep(sp, o, originals, mid, to, open);
    var y := Push(mid, to);
    assert Unmarked(y) == Unmarked(x) - {from};
    assert from in Unmarked(x);
  }

  lemma MarkingKeys(sp: Spaces, o: Store, originals: seq<Value>, x: Trace, open: set<nat>)
    requires Marking(sp, o, originals, x, open)
    ensures x.store.Keys == x.id.Keys && x.store.Keys == x.stamp.Keys && x.marked <= x.store.Keys
    ensures forall a :: a in x.marked ==> a in x.store && x.store[a].Live? && sp.Settled(a)
  {
    hide Reachable, Log, Typed, Stays, Sized;
  }

  // The open object's slot i redirected to the marked copy of what it refers to
  lemma SlotMarked(sp: Spaces, o: Store, originals: seq<Value>, x: Trace, a: nat, i: nat, r: nat)
    requires Marking(sp, o, originals, x, {a}) && a in x.marked && a in x.store
    requires ScannedUpTo(x, a, i) && i < |x.store[a].slots|
    requires x.store[a].slots[i].Pointer? && r in x.marked && r in x.id
    requires x.store[a].slots[i].address in x.id && x.id[r] == x.id[x.store[a].slots[i].address]
    ensures var y := x.(store := SetSlot(x.store, a, i, Pointer(r, x.store[a].slots[i].tag)));
            && Marking(sp, o, originals, y, {a}) && ScannedUpTo(y, a, i + 1)
            && |y.store[a].slots| == |x.store[a].slots| && Unmarked(y) == Unmarked(x)
  {
    hide Reachable, Iso, Log, SetSlot, Typed, Stays, Apart, Spaces.Settled;
    IsoKeys(o, x.store, x.id, x.stamp);
    var s := SetSlot(x.store, a, i, Pointer(r, x.store[a].slots[i].tag));
    SetSlotSame(x.store, a, i, Pointer(r, x.store[a].slots[i].tag));
    RedirectIso(o, x.store, x.id, x.stamp, a, i, Pointer(r, x.store[a].slots[i].tag));
    ApartSame(x.store, s);
    LogStore(x, x.(store := s));
  }

  // What a slot of something marked refers to stands for something reachable, and its tag tells its kind.
  lemma SlotTarget(sp: Spaces, o: Store, originals: seq<Value>, x: Trace, open: set<nat>, a: nat, i: nat)
    requires Marking(sp, o, originals, x, open) && a in x.marked && a in x.store && x.store[a].Live?
    requires i < |x.store[a].slots| && x.store[a].slots[i].Pointer?
    ensures var v := x.store[a].slots[i];
            v.address in x.store && v.address in x.id && Reachable(o, originals, x.id[v.address]) && TypedValue(sp, v)
  {
    hide Reachable, Unique, Log, Sized;
    assert Linked(o, x.store, x.id, x.stamp, a);
    assert Matches(x.id, x.store[a].slots[i], o[x.id[a]].slots[i]);
    SlotReachable(o, originals, x.id[a], i);
    assert C.HasPointer(o, x.id[a], i);
  }

  lemma RootTarget(sp: Spaces, o: Store, originals: seq<Value>, x: Trace, open: set<nat>, roots: seq<Value>, i: nat)
    requires Marking(sp, o, originals, x, open) && C.RootsMatch(x.id, roots, originals) && i < |roots|
    requires roots[i].Pointer?
    ensures var v := roots[i];
            v.address in x.store && v.address in x.id && Reachable(o, originals, x.id[v.address]) && TypedValue(sp, v)
  {
    hide Reachable, Iso, Log, Sized;
    assert Matches(x.id, roots[i], originals[i]);
    MarkingKeys(sp, o, originals, x, open);
    RootReachable(o, originals, i);
  }

  lemma Kept(sp: Spaces, o: Store, originals: seq<Value>, x: Trace, y: Trace, open: set<nat>, a: nat, n: nat)
    requires Marking(sp, o, originals, x, open) && a in x.marked && a in x.store && ScannedUpTo(x, a, n)
    requires Grows(sp, x, y)
    ensures a in y.marked && a in y.store && y.store[a] == x.store[a] && ScannedUpTo(y, a, n)
  {
    hide Reachable, Iso, Log, Typed, Stays, Sized, Unmarked;
  }

  // Taking the top of the stack and logging it as scanned
  function Opened(x: Trace, a: nat): Trace
    requires x.stack != []
  {
    x.(stack := x.stack[..|x.stack| - 1], scanned := x.scanned + [a])
  }

  lemma OpenTop(sp: Spaces, o: Store, originals: seq<Value>, x: Trace, a: nat)
    requires Marking(sp, o, originals, x, {}) && x.stack != [] && a == x.stack[|x.stack| - 1]
    ensures a in x.marked && a in x.store && x.store[a].Live?
    ensures Marking(sp, o, originals, Opened(x, a), {a})
  {
    hide Reachable, Iso, Typed, Stays, Sized, Log;
    OpenLog(x, a);
  }

  lemma OpenLog(x: Trace, a: nat)
    requires Log(x) && x.stack != [] && a == x.stack[|x.stack| - 1]
    ensures a in x.marked && Log(Opened(x, a)) && forall b :: b in Opened(x, a).scanned <==> b in x.scanned || b == a
  {
    var rest := x.stack[..|x.stack| - 1];
    assert forall b :: b in x.stack <==> b in rest || b == a;
    assert a !in rest;
  }

  lemma CloseObject(sp: Spaces, o: Store, originals: seq<Value>, x: Trace, a: nat)
    requires Marking(sp, o, originals, x, {a})
    requires a in x.store && x.store[a].Live? && ScannedUpTo(x, a, |x.store[a].slots|)
    ensures Marking(sp, o, originals, x, {})
  {
    hide Reachable, Iso, Log, Typed, Stays, Sized;
  }

  class FullCollector {
    var store: Store
    var roots: seq<Value>
    var marked: set<nat>
    var markStack: seq<nat>
    var tenuredFull: bool
    const sp: Spaces
    ghost var scanned: seq<nat>
    ghost var id: map<nat, nat>
    ghost var stamp: map<nat, nat>

    ghost function Now(): Trace
      reads this
    {
      Trace(store, marked, markStack, scanned, id, stamp)
    }

    // full_collection_copier::fixup_data
    method FixupData(pointer: nat, ghost o: Store, ghost originals: seq<Value>, ghost open: set<nat>)
      returns (ok: bool, r: nat)
      requires Marking(sp, o, originals, Now(), open) && C.Disjoint(sp.tenured, sp.code) && !tenuredFull
      requires pointer in store && pointer in id && Reachable(o, originals, id[pointer]) && !sp.code.Contains(pointer)
      modifies `store, `marked, `markStack, `tenuredFull, `id, `stamp
      ensures Marking(sp, o, originals, Now(), open) && Grows(sp, old(Now()), Now())
      ensures !ok <==> tenuredFull
      ensures ok ==> r in marked && r in id && pointer in id && id[r] == id[pointer]
    {
      hide Marking, Reachable, Iso, Grows, Room, Copy;
      MarkingParts(sp, o, originals, Now(), open);
      GrowsSame(sp, Now());
      var obj := pointer;
      if !sp.tenured.Contains(obj) {
        obj := Resolve(store, pointer, o, id, stamp);
      }
      MarkingKeys(sp, o, originals, Now(), open);
      if sp.tenured.Contains(obj) {
        if obj !in marked {
          PushStep(sp, o, originals, Now(), obj, open);
          marked, markStack := marked + {obj}, markStack + [obj];
        }
        return true, obj;
      }
      ok, r := C.AllotTenured(store, sp.tenured, store[obj].size);
      tenuredFull := !ok;
      if ok {
        PromoteStep(sp, o, originals, Now(), obj, r, open);
        store, id, stamp := Copy(store, obj, r), id[r := id[obj]], stamp[r := stamp[obj] + 1];
        marked, markStack := marked + {r}, markStack + [r];
      }
    }

    // full_collection_copier::fixup_code
    method FixupCode(pointer: nat, ghost o: Store, ghost originals: seq<Value>, ghost open: set<nat>)
      requires Marking(sp, o, originals, Now(), open)
      requires pointer in store && pointer in id && Reachable(o, originals, id[pointer]) && sp.code.Contains(pointer)
      modifies `marked, `markStack
      ensures Marking(sp, o, originals, Now(), open) && Grows(sp, old(Now()), Now()) && pointer in marked
    {
      hide Marking, Reachable, Iso, Unmarked;
      MarkingParts(sp, o, originals, Now(), open);
      if pointer !in marked {
        PushStep(sp, o, originals, Now(), pointer, open);
        marked, markStack := marked + {pointer}, markStack + [pointer];
      }
    }

    // A value of either kind
    method Fixup(v: Value, ghost o: Store, ghost originals: seq<Value>, ghost open: set<nat>) returns (ok: bool, r: nat)
      requires Marking(sp, o, originals, Now(), open) && C.Disjoint(sp.tenured, sp.code) && !tenuredFull
      requires v.Pointer? && v.address in store && v.address in id && Reachable(o, originals, id[v.address])
      requires TypedValue(sp, v)
      modifies `store, `marked, `markStack, `tenuredFull, `id, `stamp
      ensures Marking(sp, o, originals, Now(), open) && Grows(sp, old(Now()), Now())
      ensures !ok <==> tenuredFull
      ensures ok ==> r in marked && r in id && v.address in id && id[r] == id[v.address]
    {
      hide Marking, Reachable, Iso, Unmarked;
      if v.tag == CodeTag {
        FixupCode(v.address, o, originals, open);
        return true, v.address;
      } else {
        ok, r := FixupData(v.address, o, originals, open);
      }
    }

    // The object or code block just popped: its data slots, then its code pointers
    method VisitObject(a: nat, ghost o: Store, ghost originals: seq<Value>) returns (ok: bool)
      requires Marking(sp, o, originals, Now().(scanned := scanned + [a]), {a}) && C.Disjoint(sp.tenured, sp.code)
      requires a in marked && a in store && store[a].Live? && !tenuredFull
      modifies `store, `marked, `markStack, `scanned, `tenuredFull, `id, `stamp
      ensures ok ==> Marking(sp, o, originals, Now(), {}) && Spent(old(Now()), Now())
      ensures SameIds(old(id), id) && old(marked) <= marked && scanned == old(scanned) + [a]
      ensures !ok <==> tenuredFull
    {
      hide Marking, Reachable, Grows, Unmarked;
      ghost var x := Now();
      scanned := scanned + [a];
      SameUnmarked(x, Now());
      ok := true;
      var i := 0;
      while i < |store[a].slots|
        invariant Marking(sp, o, originals, Now(), {a}) && a in marked && a in store && ScannedUpTo(Now(), a, i)
        invariant Spent(x, Now()) && SameIds(x.id, id) && x.marked <= marked && scanned == x.scanned + [a]
        invariant ok && !tenuredFull
      {
        var v := store[a].slots[i];
        ghost var y := Now();
        if v.Pointer? {
          SlotTarget(sp, o, originals, y, {a}, a, i);
          var r;
          ok, r := Fixup(v, o, originals, {a});
          GrowsSpent(sp, x, y, Now());
          if !ok {
            return;
          }
          Kept(sp, o, originals, y, Now(), {a}, a, i);
          SlotMarked(sp, o, originals, Now(), a, i, r);
          store := SetSlot(store, a, i, Pointer(r, v.tag));
        }
        i := i + 1;
      }
      CloseObject(sp, o, originals, Now(), a);
    }

    // visit_mark_stack: in the end what has been scanned, each once, is what is marked
    method VisitMarkStack(ghost o: Store, ghost originals: seq<Value>) returns (ok: bool)
      requires Marking(sp, o, originals, Now(), {}) && C.Disjoint(sp.tenured, sp.code) && !tenuredFull
      modifies `store, `marked, `markStack, `scanned, `tenuredFull, `id, `stamp
      ensures ok ==> Marking(sp, o, originals, Now(), {}) && markStack == []
      ensures ok ==> Distinct(scanned) && forall a :: a in scanned <==> a in marked
      ensures SameIds(old(id), id) && old(marked) <= marked
      ensures !ok <==> tenuredFull
    {
      hide Marking, Reachable, Unmarked;
      ok := true;
      while markStack != []
        invariant Marking(sp, o, originals, Now(), {}) && SameIds(old(id), id) && old(marked) <= marked
        invariant ok && !tenuredFull
        decreases Unmarked(Now()), |markStack|
      {
        var obj := markStack[|markStack| - 1];
        OpenTop(sp, o, originals, Now(), obj);
        ghost var x := Now();
        markStack := markStack[..|markStack| - 1];
        SameUnmarked(x, Now());
        ok := VisitObject(obj, o, originals);
        if !ok {
          return;
        }
      }
      AllScanned(sp, o, originals, Now());
    }

    // visit_all_roots, visit_context_code_blocks and visit_uninitialized_code_blocks
    method VisitRoots(ghost o: Store, ghost originals: seq<Value>) returns (ok: bool)
      requires Marking(sp, o, originals, Now(), {}) && C.RootsMatch(id, roots, originals)
      requires C.Disjoint(sp.tenured, sp.code) && !tenuredFull
      modifies `store, `marked, `markStack, `tenuredFull, `id, `stamp, `roots
      ensures ok ==> Marking(sp, o, originals, Now(), {})
      ensures ok ==> C.RootsMatch(id, roots, originals) && RootsMarked(roots, marked)
      ensures !ok <==> tenuredFull
    {
      hide Marking, Reachable, Unmarked;
      ok := true;
      var i := 0;
      while i < |roots|
        invariant Marking(sp, o, originals, Now(), {}) && C.RootsMatch(id, roots, originals)
        invariant i <= |roots| && RootsMarked(roots[..i], marked)
        invariant ok && !tenuredFull
      {
        var v := roots[i];
        if v.Pointer? {
          RootTarget(sp, o, originals, Now(), {}, roots, i);
          var r;
          ok, r := Fixup(v, o, originals, {});
          if !ok {
            return;
          }
          roots := roots[i := Pointer(r, v.tag)];
        }
        assert roots[..i + 1] == roots[..i] + [roots[i]];
        i := i + 1;
      }
      assert roots[..i] == roots;
    }

    // collect_full on the graph of objects and code blocks: mark, then keep exactly what is marked
    method CollectFull() returns (ok: bool)
      requires C.AllLive(store) && C.Closed(store, roots) && Typed(sp, store, roots) && Sized(store)
      requires C.Disjoint(sp.tenured, sp.code)
      modifies this
      ensures !ok <==> tenuredFull
      ensures ok ==> C.AllLive(store) && Sized(store) && forall a :: a in store ==> sp.Settled(a)
      ensures ok ==> Iso(old(store), store, id, stamp) && C.RootsMatch(id, roots, old(roots))
      ensures ok ==> forall b :: Reachable(old(store), old(roots), b) <==> exists a :: a in id && id[a] == b
      ensures ok ==> Stays(sp, id)
      ensures ok ==> Distinct(scanned) && forall a :: a in scanned <==> a in store
    {
      hide Marking, Reachable, Iso, C.RootsMatch, C.AllLive, C.Closed, Distinct, Typed, Stays, Sized;
      ghost var o, originals := store, roots;
      id, stamp := map a | a in store :: a, map a | a in store :: 0;
      C.IsoStart(o, roots, id, stamp);
      marked, markStack, scanned, tenuredFull := {}, [], [], false;
      MarkStart(sp, o, originals, Now());
      ok := VisitRoots(o, originals);
      if !ok {
        return;
      }
      ghost var x := Now();
      ok := VisitMarkStack(o, originals);
      if !ok {
        return;
      }
      RootsStay(x, Now(), roots, originals);
      SweptIso(sp, o, originals, Now(), roots);
      SweptExtents(sp, o, originals, Now());
      store := C.Kept(store, marked);
      id, stamp := C.Kept(id, marked), C.Kept(stamp, marked);
      forall b ensures Reachable(o, originals, b) <==> exists a :: a in id && id[a] == b {
        MarkedIsReachable(o, originals, store, id, stamp, roots, b);
      }
    }
  }

  ghost predicate SameIds(x: map<nat, nat>, y: map<nat, nat>) {
    forall a :: a in x ==> a in y && y[a] == x[a]
  }

  lemma SameUnmarked(x: Trace, y: Trace)
    requires x.store == y.store && x.marked == y.marked
    ensures Unmarked(x) == Unmarked(y)
  {}

  lemma GrowsSame(sp: Spaces, x: Trace)
    ensures Grows(sp, x, x)
  {}

  lemma GrowsSpent(sp: Spaces, x: Trace, y: Trace, z: Trace)
    requires Spent(x, y) && Grows(sp, y, z) && SameIds(x.id, y.id)
    ensures Spent(x, z) && SameIds(x.id, z.id) && y.marked <= z.marked && z.scanned == y.scanned
  {
    hide Unmarked;
  }

  lemma MarkingParts(sp: Spaces, o: Store, originals: seq<Value>, x: Trace, open: set<nat>)
    requires Marking(sp, o, originals, x, open)
    ensures Iso(o, x.store, x.id, x.stamp) && Stays(sp, x.id)
    ensures forall a :: a in x.store && sp.Settled(a) ==> x.store[a].Live?
  {}

  lemma AllScanned(sp: Spaces, o: Store, originals: seq<Value>, x: Trace)
    requires Marking(sp, o, originals, x, {}) && x.stack == []
    ensures Distinct(x.scanned) && forall a :: a in x.scanned <==> a in x.marked
  {
    hide Iso, Reachable, Typed, Stays, Sized;
  }

  // ----- the end of the mark phase

  ghost predicate RootsMarked(roots: seq<Value>, marked: set<nat>) {
    forall i :: 0 <= i < |roots| ==> MarkedValue(marked, roots[i])
  }

  lemma SweptLinked(sp: Spaces, o: Store, originals: seq<Value>, x: Trace, a: nat)
    requires Marking(sp, o, originals, x, {}) && x.stack == [] && a in x.marked
    ensures x.store.Keys == x.id.Keys && x.store.Keys == x.stamp.Keys && a in x.store && x.store[a].Live?
    ensures Linked(o, C.Kept(x.store, x.marked), C.Kept(x.id, x.marked), C.Kept(x.stamp, x.marked), a)
  {
    hide Reachable, Unique, Typed, Stays, Sized;
    assert Linked(o, x.store, x.id, x.stamp, a) && GoodMark(sp, o, originals, x, a);
    var id := C.Kept(x.id, x.marked);
    forall i | 0 <= i < |x.store[a].slots| ensures Matches(id, x.store[a].slots[i], o[id[a]].slots[i]) {
      assert Matches(x.id, x.store[a].slots[i], o[x.id[a]].slots[i]);
      assert MarkedValue(x.marked, x.store[a].slots[i]);
    }
  }

  // Keeping exactly what is marked keeps the original heap: nothing marked refers to anything unmarked.
  lemma SweptIso(sp: Spaces, o: Store, originals: seq<Value>, x: Trace, roots: seq<Value>)
    requires Marking(sp, o, originals, x, {}) && x.stack == []
    requires C.RootsMatch(x.id, roots, originals) && RootsMarked(roots, x.marked)
    ensures var s, id := C.Kept(x.store, x.marked), C.Kept(x.id, x.marked);
            && s.Keys == x.marked && C.AllLive(s) && (forall a :: a in s ==> sp.Settled(a))
            && Iso(o, s, id, C.Kept(x.stamp, x.marked)) && C.RootsMatch(id, roots, originals)
  {
    hide Reachable, Linked, ScannedUpTo, Log, Typed, Stays, Sized;
    var s, id, stamp := C.Kept(x.store, x.marked), C.Kept(x.id, x.marked), C.Kept(x.stamp, x.marked);
    forall a | a in s ensures Linked(o, s, id, stamp, a) {
      SweptLinked(sp, o, originals, x, a);
    }
    forall i | 0 <= i < |roots| ensures Matches(id, roots[i], originals[i]) {
      assert Matches(x.id, roots[i], originals[i]) && MarkedValue(x.marked, roots[i]);
    }
  }

  lemma MarkStart(sp: Spaces, o: Store, originals: seq<Value>, x: Trace)
    requires C.AllLive(o) && x.store == o && x.marked == {} && x.stack == [] && x.scanned == []
    requires Iso(o, o, x.id, x.stamp) && Typed(sp, o, originals) && Sized(o) && forall a :: a in x.id ==> x.id[a] == a
    ensures Marking(sp, o, originals, x, {})
  {
    hide Iso, Reachable, Typed, Sized;
  }

  lemma RootsStay(x: Trace, y: Trace, roots: seq<Value>, originals: seq<Value>)
    requires C.RootsMatch(x.id, roots, originals) && SameIds(x.id, y.id)
    requires RootsMarked(roots, x.marked) && x.marked <= y.marked
    ensures C.RootsMatch(y.id, roots, originals) && RootsMarked(roots, y.marked)
  {}

  lemma SweptExtents(sp: Spaces, o: Store, originals: seq<Value>, x: Trace)
    requires Marking(sp, o, originals, x, {})
    ensures var s, id := C.Kept(x.store, x.marked), C.Kept(x.id, x.marked);
            Sized(s) && Stays(sp, id) && forall a :: a in id ==> Reachable(o, originals, id[a])
  {
    hide Iso, Reachable, Log, ScannedUpTo, Typed, Apart;
    ApartSame(x.store, C.Kept(x.store, x.marked));
  }

  // What survives stands for exactly what was reachable.
  lemma MarkedIsReachable(o: Store, originals: seq<Value>, s: Store, id: map<nat, nat>, stamp: map<nat, nat>,
                          roots: seq<Value>, b: nat)
    requires Iso(o, s, id, stamp) && C.AllLive(s) && C.RootsMatch(id, roots, originals)
    requires forall a :: a in id ==> Reachable(o, originals, id[a])
    ensures Reachable(o, originals, b) <==> exists a :: a in id && id[a] == b
  {
    hide Iso, Linked;
    if Reachable(o, originals, b) {
      var k, path, tag :| 0 <= k < |originals| && Walk(o, originals[k], path) == Reached(Pointer(b, tag));
      assert Matches(id, roots[k], originals[k]);
      WalkPreserved(o, s, id, stamp, roots[k], originals[k], path);
      var v := Walk(s, roots[k], path).value;
      assert v.address in id && id[v.address] == b;
    }
  }
}
