/** The object graph of the generational heap while objects move: forwarding pointers, the identity of
    objects across copies, and the remembered slots (vm/nursery_collector.cpp, vm/aging_collector.cpp,
    vm/to_tenured_collector.hpp). */
module Copying {
  datatype Value = Immediate(bits: int) | Pointer(address: nat, tag: nat)

  // An object's tagged slots and its size, or the forwarding pointer left in its header; the size of a forwarded
  // object is no longer in memory but says which addresses are still taken.
  datatype Object = Live(slots: seq<Value>, size: nat) | Forwarded(to: nat, size: nat)

  type Store = map<nat, Object>

  // An object's address and the number of one of its slots
  type Slot = (nat, nat)

  // ----- extent

  ghost predicate Before(s: Store, a: nat, b: nat)
    requires a in s
  {
    a + s[a].size <= b
  }

  // No two objects overlap.
  ghost predicate Apart(s: Store) {
    forall a, b {:trigger Before(s, a, b)} :: a in s && b in s && a < b ==> Before(s, a, b)
  }

  // No object has any of the addresses [at, at + size).
  predicate Room(s: Store, at: nat, size: nat) {
    forall a | a in s :: Misses(s, a, at, size)
  }

  predicate Misses(s: Store, a: nat, at: nat, size: nat)
    requires a in s
  {
    a + s[a].size <= at || at + size <= a
  }

  lemma ApartAdd(s: Store, at: nat, x: Object)
    requires Apart(s) && Room(s, at, x.size) && at !in s && x.size > 0 && forall a :: a in s ==> s[a].size > 0
    ensures Apart(s[at := x])
  {
    var t := s[at := x];
    forall a, b | a in t && b in t && a < b ensures Before(t, a, b) {
      if a != at && b != at {
        assert Before(s, a, b);
      } else {
        assert Misses(s, if a == at then b else a, at, x.size);
      }
    }
  }

  // Objects that keep their sizes stay apart.
  lemma ApartSame(s: Store, t: Store)
    requires Apart(s) && forall a :: a in t ==> a in s && t[a].size == s[a].size
    ensures Apart(t)
  {
    forall a, b | a in t && b in t && a < b ensures Before(t, a, b) {
      assert Before(s, a, b);
    }
  }

  lemma ApartCopy(s: Store, from: nat, to: nat)
    requires Apart(s) && from in s && to !in s && Room(s, to, s[from].size) && forall a :: a in s ==> s[a].size > 0
    ensures Apart(Copy(s, from, to))
  {
    hide Room, Apart;
    ApartAdd(s, to, s[from]);
    ApartSame(s[to := s[from]], Copy(s, from, to));
  }

  // ----- identity: id gives, for every address in use, the object of the original heap it stands for

  ghost predicate Matches(id: map<nat, nat>, v: Value, original: Value) {
    match v
    case Immediate(_) => original == v
    case Pointer(a, t) => a in id && original == Pointer(id[a], t)
  }

  ghost predicate SameObject(id: map<nat, nat>, x: Object, original: Object) {
    && x.Live? && original.Live? && x.size == original.size && |x.slots| == |original.slots|
    && forall i :: 0 <= i < |x.slots| ==> Matches(id, x.slots[i], original.slots[i])
  }

  // A forwarding pointer leads to a later copy of the same object; a live object is its original, slot for slot.
  ghost predicate Linked(o: Store, s: Store, id: map<nat, nat>, stamp: map<nat, nat>, a: nat)
    requires a in s && s.Keys == id.Keys && s.Keys == stamp.Keys
  {
    id[a] in o &&
    match s[a]
    case Forwarded(to, _) => to in s && id[to] == id[a] && stamp[a] < stamp[to]
    case Live(_, _) => SameObject(id, s[a], o[id[a]])
  }

  ghost predicate Unique(s: Store, id: map<nat, nat>)
    requires s.Keys == id.Keys
  {
    forall a, b :: a in s && b in s && s[a].Live? && s[b].Live? && id[a] == id[b] ==> a == b
  }

  // s is the original heap o with some objects moved: no object lost, split or changed.
  ghost predicate Iso(o: Store, s: Store, id: map<nat, nat>, stamp: map<nat, nat>) {
    && s.Keys == id.Keys && s.Keys == stamp.Keys
    && (forall a :: a in s ==> Linked(o, s, id, stamp, a))
    && Unique(s, id)
  }

  lemma IsoKeys(o: Store, s: Store, id: map<nat, nat>, stamp: map<nat, nat>)
    requires Iso(o, s, id, stamp)
    ensures s.Keys == id.Keys && s.Keys == stamp.Keys
  {}

  function Copy(s: Store, from: nat, to: nat): Store
    requires from in s
  {
    s[to := s[from]][from := Forwarded(to, s[from].size)]
  }

  lemma CopyLinked(o: Store, s: Store, id: map<nat, nat>, stamp: map<nat, nat>, from: nat, to: nat, a: nat)
    requires Iso(o, s, id, stamp) && from in s && s[from].Live? && to !in s && a in Copy(s, from, to)
    ensures Linked(o, Copy(s, from, to), id[to := id[from]], stamp[to := stamp[from] + 1], a)
  {
    hide Unique;
    assert Linked(o, s, id, stamp, from);
    if a in s {
      assert Linked(o, s, id, stamp, a);
    }
  }

  lemma CopyIso(o: Store, s: Store, id: map<nat, nat>, stamp: map<nat, nat>, from: nat, to: nat)
    requires Iso(o, s, id, stamp) && from in s && s[from].Live? && to !in s
    ensures Iso(o, Copy(s, from, to), id[to := id[from]], stamp[to := stamp[from] + 1])
  {
    hide Linked;
    var after, id', stamp' := Copy(s, from, to), id[to := id[from]], stamp[to := stamp[from] + 1];
    forall a | a in after ensures Linked(o, after, id', stamp', a) {
      CopyLinked(o, s, id, stamp, from, to, a);
    }
  }

  function SetSlot(s: Store, a: nat, i: nat, v: Value): Store
    requires a in s && s[a].Live? && i < |s[a].slots|
  {
    s[a := Live(s[a].slots[i := v], s[a].size)]
  }

  lemma SetSlotSame(s: Store, a: nat, i: nat, v: Value)
    requires a in s && s[a].Live? && i < |s[a].slots|
    ensures SetSlot(s, a, i, v).Keys == s.Keys && (forall b :: b in s && b != a ==> SetSlot(s, a, i, v)[b] == s[b])
    ensures SetSlot(s, a, i, v)[a] == Live(s[a].slots[i := v], s[a].size)
  {}

  lemma RedirectLinked(o: Store, s: Store, id: map<nat, nat>, stamp: map<nat, nat>, a: nat, i: nat, v: Value, b: nat)
    requires Iso(o, s, id, stamp) && a in s && s[a].Live? && i < |s[a].slots| && b in s
    requires s[a].slots[i].Pointer? && v.Pointer? && v.tag == s[a].slots[i].tag
    requires v.address in s && s[a].slots[i].address in s && id[v.address] == id[s[a].slots[i].address]
    ensures Linked(o, SetSlot(s, a, i, v), id, stamp, b)
  {
    hide Unique;
    assert Linked(o, s, id, stamp, b);
  }

  // Redirecting a slot to another copy of the object it refers to
  lemma RedirectIso(o: Store, s: Store, id: map<nat, nat>, stamp: map<nat, nat>, a: nat, i: nat, v: Value)
    requires Iso(o, s, id, stamp) && a in s && s[a].Live? && i < |s[a].slots|
    requires s[a].slots[i].Pointer? && v.Pointer? && v.tag == s[a].slots[i].tag
    requires v.address in s && s[a].slots[i].address in s && id[v.address] == id[s[a].slots[i].address]
    ensures Iso(o, SetSlot(s, a, i, v), id, stamp)
  {
    hide Linked;
    var after := SetSlot(s, a, i, v);
    forall b | b in after ensures Linked(o, after, id, stamp, b) {
      RedirectLinked(o, s, id, stamp, a, i, v, b);
    }
  }

  lemma SlotInStore(o: Store, s: Store, id: map<nat, nat>, stamp: map<nat, nat>, a: nat, i: nat)
    requires Iso(o, s, id, stamp) && a in s && s[a].Live? && i < |s[a].slots| && s[a].slots[i].Pointer?
    ensures s[a].slots[i].address in s
  {
    assert Linked(o, s, id, stamp, a);
    assert Matches(id, s[a].slots[i], o[id[a]].slots[i]);
  }

  // The copies made after a
  ghost function Later(stamp: map<nat, nat>, a: nat): set<nat>
    requires a in stamp
  {
    set b | b in stamp && stamp[b] > stamp[a]
  }

  // Following a forwarding pointer keeps the identity and moves on to a later copy.
  lemma ForwardStep(o: Store, s: Store, id: map<nat, nat>, stamp: map<nat, nat>, a: nat)
    requires Iso(o, s, id, stamp) && a in s && s[a].Forwarded?
    ensures s[a].to in s && id[s[a].to] == id[a] && Later(stamp, s[a].to) < Later(stamp, a)
  {
    hide Unique;
    assert Linked(o, s, id, stamp, a);
    assert s[a].to in Later(stamp, a);
  }

  // Chase forwarding pointers to the current copy
  method Resolve(store: Store, pointer: nat, ghost o: Store, ghost id: map<nat, nat>, ghost stamp: map<nat, nat>)
    returns (obj: nat)
    requires Iso(o, store, id, stamp) && pointer in store
    ensures obj in store && store[obj].Live? && id[obj] == id[pointer]
  {
    hide Linked, Unique, Later;
    obj := pointer;
    while store[obj].Forwarded?
      invariant obj in store && id[obj] == id[pointer]
      decreases Later(stamp, obj)
    {
      ForwardStep(o, store, id, stamp, obj);
      obj := store[obj].to;
    }
  }

  // ----- what has been visited; `done` are the addresses the copier leaves alone

  ghost predicate DoneValue(done: iset<nat>, v: Value) { v.Pointer? ==> v.address in done }

  ghost predicate DoneLive(s: Store, done: iset<nat>) {
    forall a :: a in s && a in done ==> s[a].Live?
  }

  // Every slot of a finished object is finished, is remembered, or belongs to an object still to be scanned.
  ghost predicate Remembered(s: Store, done: iset<nat>, slots: set<Slot>, todo: set<nat>) {
    forall a, i :: a in s && a in done && s[a].Live? && 0 <= i < |s[a].slots| && a !in todo ==>
      DoneValue(done, s[a].slots[i]) || (a, i) in slots
  }

  // Nothing done is undone: finished objects keep their shape, finished slots their values.
  ghost predicate Extends(s: Store, t: Store, done: iset<nat>) {
    && s.Keys <= t.Keys
    && (forall a :: a in t && a !in s ==> a in done)
    && (forall a :: a in s && a in done ==>
          s[a].Live? && t[a].Live? && |t[a].slots| == |s[a].slots| && t[a].size == s[a].size)
    && (forall a, i :: a in s && a in done && s[a].Live? && 0 <= i < |s[a].slots| && DoneValue(done, s[a].slots[i]) ==>
          t[a].slots[i] == s[a].slots[i])
    && (forall a :: a in s && a !in done && t[a].Live? ==> t[a] == s[a])
  }

  lemma ExtendsTrans(s: Store, t: Store, u: Store, done: iset<nat>)
    requires Extends(s, t, done) && Extends(t, u, done)
    ensures Extends(s, u, done)
  {}

  // Live objects the copier still has to move; each copy removes one.
  ghost function Waiting(s: Store, done: iset<nat>): set<nat> {
    set a | a in s && a !in done && s[a].Live?
  }

  lemma ExtendsWaiting(s: Store, t: Store, done: iset<nat>)
    requires Extends(s, t, done)
    ensures Waiting(t, done) <= Waiting(s, done)
  {}

  lemma CopyStep(s: Store, done: iset<nat>, slots: set<Slot>, todo: set<nat>, from: nat, to: nat)
    requires from in s && s[from].Live? && from !in done && to !in s && to in done && DoneLive(s, done)
    requires Remembered(s, done, slots, todo)
    ensures Extends(s, Copy(s, from, to), done) && DoneLive(Copy(s, from, to), done)
    ensures Remembered(Copy(s, from, to), done, slots, todo + {to})
    ensures Waiting(Copy(s, from, to), done) < Waiting(s, done)
  {
    assert from in Waiting(s, done) && from !in Waiting(Copy(s, from, to), done);
  }

  lemma SlotStep(s: Store, done: iset<nat>, slots: set<Slot>, todo: set<nat>, a: nat, i: nat, v: Value)
    requires a in s && a in done && s[a].Live? && i < |s[a].slots| && DoneLive(s, done)
    requires DoneValue(done, v) && (DoneValue(done, s[a].slots[i]) ==> v == s[a].slots[i])
    requires Remembered(s, done, slots, todo)
    ensures Extends(s, SetSlot(s, a, i, v), done) && DoneLive(SetSlot(s, a, i, v), done)
    ensures Remembered(SetSlot(s, a, i, v), done, slots, todo)
    ensures DoneValue(done, SetSlot(s, a, i, v)[a].slots[i])
  {}

  // ----- what the program can observe

  datatype Reached = Nowhere | Reached(value: Value)

  // Follow a path of slot numbers from a value
  ghost function Walk(s: Store, v: Value, path: seq<nat>): Reached
    decreases |path|
  {
    if path == [] then Reached(v)
    else if v.Immediate? || v.address !in s || s[v.address].Forwarded? || path[0] >= |s[v.address].slots| then Nowhere
    else Walk(s, s[v.address].slots[path[0]], path[1..])
  }

  ghost predicate SameReached(id: map<nat, nat>, x: Reached, original: Reached) {
    match x
    case Nowhere => original.Nowhere?
    case Reached(v) => original.Reached? && Matches(id, v, original.value)
  }

  // Any access path from matching values leads to the same immediate, to nowhere, or to the same object.
  lemma {:induction false} WalkPreserved(o: Store, s: Store, id: map<nat, nat>, stamp: map<nat, nat>, v: Value,
                                         original: Value, path: seq<nat>)
    requires Iso(o, s, id, stamp) && (forall a :: a in s ==> s[a].Live?) && Matches(id, v, original)
    ensures SameReached(id, Walk(s, v, path), Walk(o, original, path))
    decreases |path|
  {
    hide Unique;
    if path != [] && v.Pointer? {
      var a := v.address;
      assert Linked(o, s, id, stamp, a);
      if path[0] < |s[a].slots| {
        assert Matches(id, s[a].slots[path[0]], o[id[a]].slots[path[0]]);
        WalkPreserved(o, s, id, stamp, s[a].slots[path[0]], o[id[a]].slots[path[0]], path[1..]);
      }
    }
  }

  // Two paths meet in the same object exactly if they did in the original heap.
  lemma SharingPreserved(o: Store, s: Store, id: map<nat, nat>, stamp: map<nat, nat>,
                         v: Value, original: Value, path: seq<nat>, w: Value, original': Value, path': seq<nat>)
    requires Iso(o, s, id, stamp) && (forall a :: a in s ==> s[a].Live?) && Matches(id, v, original)
    requires Matches(id, w, original')
    ensures Walk(s, v, path) == Walk(s, w, path') <==> Walk(o, original, path) == Walk(o, original', path')
  {
    hide Walk, Linked;
    WalkPreserved(o, s, id, stamp, v, original, path);
    WalkPreserved(o, s, id, stamp, w, original', path');
  }

  // ----- what can be reached

  lemma {:induction false} WalkAppend(o: Store, v: Value, path: seq<nat>, i: nat)
    requires Walk(o, v, path).Reached? && Walk(o, v, path).value.Pointer?
    requires var a := Walk(o, v, path).value.address; a in o && o[a].Live? && i < |o[a].slots|
    ensures Walk(o, v, path + [i]) == Reached(o[Walk(o, v, path).value.address].slots[i])
    decreases |path|
  {
    if path == [] {
      assert (path + [i])[1..] == [];
    } else {
      assert (path + [i])[1..] == path[1..] + [i];
      WalkAppend(o, o[v.address].slots[path[0]], path[1..], i);
    }
  }

  ghost predicate ReachableFrom(o: Store, seeds: set<nat>, b: nat) {
    exists s, path: seq<nat>, tag :: s in seeds && Walk(o, Pointer(s, 0), path) == Reached(Pointer(b, tag))
  }

  ghost function ReachSet(o: Store, seeds: set<nat>): set<nat> {
    set b | b in o && ReachableFrom(o, seeds, b)
  }

  // A set of objects that refer only to one another
  ghost predicate ClosedIn(o: Store, reach: set<nat>) {
    forall b, i :: b in reach && b in o && o[b].Live? && 0 <= i < |o[b].slots| && o[b].slots[i].Pointer? ==>
      o[b].slots[i].address in reach
  }

  lemma SeedReached(o: Store, seeds: set<nat>, s: nat)
    requires s in seeds && s in o
    ensures s in ReachSet(o, seeds)
  {
    assert Walk(o, Pointer(s, 0), []) == Reached(Pointer(s, 0));
  }

  lemma ReachClosed(o: Store, seeds: set<nat>)
    requires forall b, i :: b in o && o[b].Live? && 0 <= i < |o[b].slots| && o[b].slots[i].Pointer? ==>
      o[b].slots[i].address in o
    ensures ClosedIn(o, ReachSet(o, seeds))
  {
    hide Walk;
    var reach := ReachSet(o, seeds);
    forall b, i | b in reach && b in o && o[b].Live? && 0 <= i < |o[b].slots| && o[b].slots[i].Pointer?
      ensures o[b].slots[i].address in reach
    {
      var s, path: seq<nat>, tag :| s in seeds && Walk(o, Pointer(s, 0), path) == Reached(Pointer(b, tag));
      WalkAppend(o, Pointer(s, 0), path, i);
      var v := o[b].slots[i];
      assert Walk(o, Pointer(s, 0), path + [i]) == Reached(Pointer(v.address, v.tag));
    }
  }

  lemma ReachMono(o: Store, seeds: set<nat>, more: set<nat>)
    requires seeds <= more
    ensures ReachSet(o, seeds) <= ReachSet(o, more)
  {
    hide Walk;
    forall b | b in ReachSet(o, seeds) ensures b in ReachSet(o, more) {
      var s, path: seq<nat>, tag :| s in seeds && Walk(o, Pointer(s, 0), path) == Reached(Pointer(b, tag));
      assert s in more;
    }
  }

  // If every seed has survived, so has everything it reaches.
  lemma ReachedSurvives(o: Store, s: Store, id: map<nat, nat>, stamp: map<nat, nat>, seeds: set<nat>, b: nat)
    requires Iso(o, s, id, stamp) && (forall a :: a in s ==> s[a].Live?)
    requires forall e :: e in seeds ==> exists a :: a in id && id[a] == e
    requires ReachableFrom(o, seeds, b)
    ensures exists a :: a in id && id[a] == b
  {
    hide Walk, Linked, Unique;
    var e, path: seq<nat>, tag :| e in seeds && Walk(o, Pointer(e, 0), path) == Reached(Pointer(b, tag));
    var a :| a in id && id[a] == e;
    WalkPreserved(o, s, id, stamp, Pointer(a, 0), Pointer(e, 0), path);
    assert Walk(s, Pointer(a, 0), path).Reached? && Matches(id, Walk(s, Pointer(a, 0), path).value, Pointer(b, tag));
  }
}
