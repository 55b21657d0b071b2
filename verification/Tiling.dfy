/** Blocks, given by their start and size, that lie back to back from 0 to n. */
module Tiling {
  ghost predicate Meets(t: map<nat, nat>, n: nat, a: nat)
    requires a in t
  {
    t[a] > 0 && a + t[a] <= n && (a + t[a] < n ==> a + t[a] in t)
  }

  ghost predicate Ends(t: map<nat, nat>, a: nat, b: nat)
    requires a in t
  {
    a + t[a] <= b
  }

  ghost predicate Tiled(t: map<nat, nat>, n: nat) {
    && (n > 0 ==> 0 in t)
    && (forall a {:trigger Meets(t, n, a)} :: a in t ==> Meets(t, n, a))
    && (forall a, b {:trigger Ends(t, a, b)} :: a in t && b in t && a < b ==> Ends(t, a, b))
  }

  lemma InOrder(t: map<nat, nat>, n: nat, a: nat, b: nat)
    requires Tiled(t, n) && a in t && b in t && a < b
    ensures a + t[a] <= b
  {
    assert Ends(t, a, b);
  }

  lemma TileAt(t: map<nat, nat>, n: nat, a: nat)
    requires Tiled(t, n) && a in t
    ensures t[a] > 0 && a + t[a] <= n && (a + t[a] < n ==> a + t[a] in t)
  {
    assert Meets(t, n, a);
  }

  // The block an address is in
  lemma Containing(t: map<nat, nat>, n: nat, x: nat) returns (a: nat)
    requires Tiled(t, n) && x < n
    ensures a in t && a <= x < a + t[a]
  {
    a := 0;
    while a + t[a] <= x
      invariant a in t && a <= x
      decreases x - a
    {
      TileAt(t, n, a);
      a := a + t[a];
    }
  }

  lemma TiledAppend(t: map<nat, nat>, n: nat, size: nat)
    requires Tiled(t, n) && size > 0
    ensures n !in t && Tiled(t[n := size], n + size)
  {
    var u := t[n := size];
    forall a | a in t ensures a < n && a + t[a] <= n {
      TileAt(t, n, a);
    }
    forall a | a in u ensures Meets(u, n + size, a) {
      if a != n {
        TileAt(t, n, a);
      }
    }
    forall a, b | a in u && b in u && a < b ensures Ends(u, a, b) {
      if b != n {
        InOrder(t, n, a, b);
      }
    }
  }

  // A block cut in two
  function Cut(t: map<nat, nat>, a: nat, size: nat): map<nat, nat>
    requires a in t && size <= t[a]
  {
    t[a := size][a + size := t[a] - size]
  }

  lemma TiledCut(t: map<nat, nat>, n: nat, a: nat, size: nat)
    requires Tiled(t, n) && a in t && 0 < size < t[a]
    ensures a + size !in t && Tiled(Cut(t, a, size), n)
  {
    var u := Cut(t, a, size);
    TileAt(t, n, a);
    if a + size in t {
      InOrder(t, n, a, a + size);
    }
    forall b | b in u ensures Meets(u, n, b) {
      if b in t {
        TileAt(t, n, b);
      }
    }
    forall b, c | b in u && c in u && b < c ensures Ends(u, b, c) {
      CutInOrder(t, n, a, size, b, c);
    }
  }

  lemma CutInOrder(t: map<nat, nat>, n: nat, a: nat, size: nat, b: nat, c: nat)
    requires Tiled(t, n) && a in t && 0 < size < t[a] && a + size !in t
    requires b in Cut(t, a, size) && c in Cut(t, a, size) && b < c
    ensures b + Cut(t, a, size)[b] <= c
  {
    var e := if b == a + size then a else b;
    var f := if c == a + size then a else c;
    if e < f {
      InOrder(t, n, e, f);
    } else if f < e {
      InOrder(t, n, f, e);
    }
  }

  // The blocks from a up to a + size made one
  function Merged(t: map<nat, nat>, a: nat, size: nat): map<nat, nat> {
    map b | b in t && !(a < b < a + size) :: if b == a then size else t[b]
  }

  lemma TiledMerged(t: map<nat, nat>, n: nat, a: nat, size: nat)
    requires Tiled(t, n) && a in t && size > 0 && (a + size == n || (a + size < n && a + size in t))
    ensures Tiled(Merged(t, a, size), n)
  {
    var u := Merged(t, a, size);
    var end := a + size;
    TileAt(t, n, a);
    forall b, c | b in u && c in u && b < c ensures Ends(u, b, c) {
      InOrder(t, n, b, c);
    }
    forall b | b in u ensures Meets(u, n, b) {
      TileAt(t, n, b);
      if b != a && b + t[b] < n && a < b + t[b] {
        if b < a {
          InOrder(t, n, b, a);
        }
      }
    }
  }
}
