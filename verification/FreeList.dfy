/** The free list allocator of the tenured space (vm/free_list.hpp). Addresses and sizes count 16-byte
    lines. Blocks, used or free, tile the space: each header holds its block's size, and `blocks` are the ones
    whose header says free. */
module FreeList {
  import opened MarkBits
  import opened Bits
  import opened Sequences
  import opened Tiling

  const FreeListCount: nat := 32
  const PageSize: nat := 64

  // The lines of a block
  ghost function Range(a: nat, size: nat): set<nat> { set l: nat | a <= l < a + size && Within(l, a, size) }

  ghost predicate Within(l: nat, a: nat, size: nat) { a <= l < a + size }

  lemma {:induction false} RangeCard(a: nat, size: nat)
    ensures |Range(a, size)| == size
  {
    if size > 0 {
      RangeCard(a, size - 1);
      assert Range(a, size) == Range(a, size - 1) + {a + size - 1};
    }
  }

  lemma {:induction false} RemoveCard(lines: set<nat>, a: nat, size: nat)
    requires Range(a, size) <= lines
    ensures |lines - Range(a, size)| == |lines| - size
  {
    RangeCard(a, size);
  }

  lemma AddCard(lines: set<nat>, a: nat, size: nat)
    requires Range(a, size) !! lines
    ensures |lines + Range(a, size)| == |lines| + size
  {
    RangeCard(a, size);
  }

  // The free blocks cover the free lines.
  ghost predicate Covers(blocks: set<nat>, header: map<nat, nat>, lines: set<nat>) {
    && (forall a :: a in blocks ==> a in header)
    && (forall a, l :: a in blocks && Within(l, a, header[a]) ==> l in lines)
    && (forall l :: l in lines ==> exists a :: a in blocks && Within(l, a, header[a]))
  }

  // In a tiling two blocks share no line.
  lemma SameBlock(t: map<nat, nat>, total: nat, a: nat, b: nat, l: nat)
    requires Tiled(t, total) && a in t && b in t && Within(l, a, t[a]) && Within(l, b, t[b])
    ensures a == b
  {
    if a < b {
      InOrder(t, total, a, b);
    } else if b < a {
      InOrder(t, total, b, a);
    }
  }

  // A used block has no free line.
  lemma UsedApart(blocks: set<nat>, header: map<nat, nat>, lines: set<nat>, total: nat, a: nat)
    requires Covers(blocks, header, lines) && Tiled(header, total) && a in header && a !in blocks
    ensures Range(a, header[a]) !! lines
  {
    hide Tiled;
    forall l | l in Range(a, header[a]) ensures l !in lines {
      if l in lines {
        var b :| b in blocks && Within(l, b, header[b]);
        SameBlock(header, total, a, b, l);
      }
    }
  }

  lemma CoversAdd(blocks: set<nat>, header: map<nat, nat>, lines: set<nat>, a: nat)
    requires Covers(blocks, header, lines) && a in header
    ensures Covers(blocks + {a}, header, lines + Range(a, header[a]))
  {
    var b, n := blocks + {a}, lines + Range(a, header[a]);
    forall l | l in n ensures exists c :: c in b && Within(l, c, header[c]) {
      if l in lines {
        var c :| c in blocks && Within(l, c, header[c]);
        assert c in b;
      } else {
        assert a in b && Within(l, a, header[a]);
      }
    }
  }

  lemma CoversRemove(blocks: set<nat>, header: map<nat, nat>, lines: set<nat>, total: nat, a: nat)
    requires Covers(blocks, header, lines) && Tiled(header, total) && a in blocks
    ensures Covers(blocks - {a}, header, lines - Range(a, header[a])) && Range(a, header[a]) <= lines
  {
    hide Tiled;
    var b, n := blocks - {a}, lines - Range(a, header[a]);
    forall l | l in n ensures exists c :: c in b && Within(l, c, header[c]) {
      var c :| c in blocks && Within(l, c, header[c]);
      assert c in b;
    }
    forall c, l | c in b && Within(l, c, header[c]) ensures l in n {
      if l in Range(a, header[a]) {
        SameBlock(header, total, a, c, l);
      }
    }
  }

  // ----- used blocks

  ghost function UsedIn(header: map<nat, nat>, blocks: set<nat>): map<nat, nat> {
    map a | a in header && a !in blocks :: header[a]
  }

  lemma UsedFreed(header: map<nat, nat>, blocks: set<nat>, a: nat)
    ensures UsedIn(header, blocks + {a}) == UsedIn(header, blocks) - {a}
  {}

  lemma UsedTaken(header: map<nat, nat>, blocks: set<nat>, a: nat)
    requires a in blocks && a in header
    ensures a !in UsedIn(header, blocks) && UsedIn(header, blocks - {a}) == UsedIn(header, blocks)[a := header[a]]
  {}

  lemma UsedCut(header: map<nat, nat>, blocks: set<nat>, a: nat, size: nat)
    requires a in header && a !in blocks && size <= header[a] && a + size !in blocks
    ensures UsedIn(Cut(header, a, size), blocks) == Cut(UsedIn(header, blocks), a, size)
  {}

  // ----- the lists

  ghost predicate SmallList(s: seq<nat>, header: map<nat, nat>, blocks: set<nat>, k: nat) {
    Distinct(s) && forall a :: a in s <==> a in blocks && a in header && header[a] == k
  }

  ghost predicate LargeList(s: seq<nat>, header: map<nat, nat>, blocks: set<nat>) {
    && Distinct(s) && (forall a :: a in s <==> a in blocks && a in header && header[a] >= FreeListCount)
    && SizeOrder(s, header)
  }

  // Every block is on the list its size calls for, once; the large ones are in order of size.
  ghost predicate Lists(small: seq<seq<nat>>, large: seq<nat>, header: map<nat, nat>, blocks: set<nat>) {
    && |small| == FreeListCount && (forall k :: 0 <= k < FreeListCount ==> SmallList(small[k], header, blocks, k))
    && LargeList(large, header, blocks)
  }

  lemma ListsShape(small: seq<seq<nat>>, large: seq<nat>, header: map<nat, nat>, blocks: set<nat>)
    requires Lists(small, large, header, blocks)
    ensures |small| == FreeListCount
    ensures forall i :: 0 <= i < |large| ==>
      large[i] in header && large[i] in blocks && header[large[i]] >= FreeListCount
  {
    assert forall i :: 0 <= i < |large| ==> large[i] in large;
  }

  lemma ListsAddSmall(small: seq<seq<nat>>, large: seq<nat>, header: map<nat, nat>, blocks: set<nat>, a: nat)
    requires Lists(small, large, header, blocks) && a !in blocks && a in header && header[a] < FreeListCount
    ensures Lists(small[header[a] := small[header[a]] + [a]], large, header, blocks + {a})
  {
    var s, b := small[header[a] := small[header[a]] + [a]], blocks + {a};
    forall k | 0 <= k < FreeListCount ensures SmallList(s[k], header, b, k) {
      assert SmallList(small[k], header, blocks, k);
    }
  }

  function Inserted(s: seq<nat>, i: nat, a: nat): seq<nat>
    requires i <= |s|
  {
    s[..i] + [a] + s[i..]
  }

  lemma InsertedMembers(s: seq<nat>, i: nat, a: nat)
    requires i <= |s| && a !in s && Distinct(s)
    ensures Distinct(Inserted(s, i, a)) && forall c :: c in Inserted(s, i, a) <==> c in s || c == a
    ensures forall j :: 0 <= j <= |s| ==> Inserted(s, i, a)[j] == if j < i then s[j] else if j == i then a else s[j - 1]
  {
    var t := Inserted(s, i, a);
    forall c | c in s ensures c in t {
      var j :| 0 <= j < |s| && s[j] == c;
      assert t[if j < i then j else j + 1] == c;
    }
    assert t[i] == a;
  }

  ghost predicate SizeOrder(s: seq<nat>, header: map<nat, nat>) {
    && (forall i :: 0 <= i < |s| ==> s[i] in header)
    && (forall i, j :: 0 <= i < j < |s| ==> header[s[i]] <= header[s[j]])
  }

  lemma InsertedInOrder(s: seq<nat>, header: map<nat, nat>, a: nat, i: nat)
    requires SizeOrder(s, header) && a in header && i <= |s|
    requires forall j :: 0 <= j < i ==> header[s[j]] <= header[a]
    requires forall j :: i <= j < |s| ==> header[a] <= header[s[j]]
    ensures SizeOrder(Inserted(s, i, a), header)
  {
    var t := Inserted(s, i, a);
    assert forall j :: 0 <= j < |t| ==> t[j] == if j < i then s[j] else if j == i then a else s[j - 1];
  }

  lemma ListsAddLarge(
    small: seq<seq<nat>>, large: seq<nat>, header: map<nat, nat>, blocks: set<nat>, a: nat, i: nat)
    requires Lists(small, large, header, blocks) && a !in blocks && a in header && header[a] >= FreeListCount
    requires i <= |large| && SizeOrder(Inserted(large, i, a), header)
    ensures Lists(small, Inserted(large, i, a), header, blocks + {a})
  {
    hide Distinct, Inserted;
    forall k | 0 <= k < FreeListCount ensures SmallList(small[k], header, blocks + {a}, k) {
      assert SmallList(small[k], header, blocks, k);
    }
    InsertedMembers(large, i, a);
  }

  lemma ListsPopSmall(small: seq<seq<nat>>, large: seq<nat>, header: map<nat, nat>, blocks: set<nat>, k: nat)
    requires Lists(small, large, header, blocks) && k < FreeListCount && small[k] != []
    ensures var a := small[k][|small[k]| - 1];
            && a in blocks && a in header && header[a] == k
            && Lists(small[k := small[k][..|small[k]| - 1]], large, header, blocks - {a})
  {
    var last := |small[k]| - 1;
    var a, rest := small[k][last], small[k][..last];
    assert SmallList(small[k], header, blocks, k) && a in small[k];
    assert forall c :: c in small[k] <==> c in rest || c == a;
    var after := small[k := rest];
    forall j | 0 <= j < FreeListCount ensures SmallList(after[j], header, blocks - {a}, j) {
      assert SmallList(small[j], header, blocks, j);
    }
  }

  lemma ListsPopLarge(small: seq<seq<nat>>, large: seq<nat>, header: map<nat, nat>, blocks: set<nat>, i: nat)
    requires Lists(small, large, header, blocks) && i < |large|
    ensures large[i] in blocks && large[i] in header && header[large[i]] >= FreeListCount
    ensures Lists(small, Without(large, i), header, blocks - {large[i]})
  {
    hide Distinct;
    var a, s := large[i], Without(large, i);
    ListsShape(small, large, header, blocks);
    WithoutMembers(large, i);
    assert forall j :: 0 <= j < |s| ==> s[j] == large[if j < i then j else j + 1];
    forall k | 0 <= k < FreeListCount ensures SmallList(small[k], header, blocks - {a}, k) {
      assert SmallList(small[k], header, blocks, k);
    }
  }

  // ----- the allocator's promises

  // The state as a value: its lists, the block headers, and what they stand for
  datatype Space =
    Space(small: seq<seq<nat>>, large: seq<nat>, header: map<nat, nat>, blocks: set<nat>, lines: set<nat>)

  ghost predicate Good(x: Space, total: nat) {
    && Lists(x.small, x.large, x.header, x.blocks)
    && Covers(x.blocks, x.header, x.lines)
    && Tiled(x.header, total)
  }

  lemma GoodAdd(x: Space, total: nat, a: nat, y: Space)
    requires Good(x, total) && a in x.header && a !in x.blocks
    requires y.header == x.header && y.blocks == x.blocks + {a} && y.lines == x.lines + Range(a, x.header[a])
    requires Lists(y.small, y.large, y.header, y.blocks)
    ensures Good(y, total) && |y.lines| == |x.lines| + x.header[a] && |y.blocks| == |x.blocks| + 1
    ensures Range(a, x.header[a]) !! x.lines && UsedIn(y.header, y.blocks) == UsedIn(x.header, x.blocks) - {a}
  {
    hide Lists, Covers, Tiled, Range, UsedIn;
    UsedApart(x.blocks, x.header, x.lines, total, a);
    CoversAdd(x.blocks, x.header, x.lines, a);
    AddCard(x.lines, a, x.header[a]);
    UsedFreed(x.header, x.blocks, a);
  }

  lemma GoodRemove(x: Space, total: nat, a: nat, y: Space)
    requires Good(x, total) && a in x.blocks && a in x.header
    requires y.header == x.header && y.blocks == x.blocks - {a} && y.lines == x.lines - Range(a, x.header[a])
    requires Lists(y.small, y.large, y.header, y.blocks)
    ensures Good(y, total) && |y.lines| == |x.lines| - x.header[a] && |y.blocks| == |x.blocks| - 1
    ensures Range(a, x.header[a]) <= x.lines && a + x.header[a] <= total && x.header[a] > 0
    ensures a !in UsedIn(x.header, x.blocks)
    ensures UsedIn(y.header, y.blocks) == UsedIn(x.header, x.blocks)[a := x.header[a]]
  {
    hide Lists, Covers, Tiled, Range, UsedIn;
    CoversRemove(x.blocks, x.header, x.lines, total, a);
    RemoveCard(x.lines, a, x.header[a]);
    TileAt(x.header, total, a);
    UsedTaken(x.header, x.blocks, a);
  }

  lemma Subrange(a: nat, size: nat, first: nat, rest: nat)
    requires size == first + rest
    ensures Range(a, first) <= Range(a, size) && Range(a + first, rest) <= Range(a, size)
    ensures Range(a, first) !! Range(a + first, rest) && Range(a, size) == Range(a, first) + Range(a + first, rest)
  {}

  // Rewriting headers of used blocks
  lemma Retiled(x: Space, total: nat, header: map<nat, nat>)
    requires Good(x, total) && Tiled(header, total)
    requires forall a :: a in x.blocks && a in x.header ==> a in header && header[a] == x.header[a]
    ensures Good(x.(header := header), total)
  {
    hide Tiled, Distinct;
    forall k | 0 <= k < FreeListCount ensures SmallList(x.small[k], header, x.blocks, k) {
      assert SmallList(x.small[k], x.header, x.blocks, k);
    }
    forall l | l in x.lines ensures exists a :: a in x.blocks && Within(l, a, header[a]) {
      var a :| a in x.blocks && Within(l, a, x.header[a]);
      assert a in x.blocks && Within(l, a, header[a]);
    }
    RetiledLarge(x.large, x.header, header, x.blocks);
  }

  lemma RetiledLarge(s: seq<nat>, before: map<nat, nat>, after: map<nat, nat>, blocks: set<nat>)
    requires LargeList(s, before, blocks)
    requires forall a :: a in blocks ==> a in before && a in after && after[a] == before[a]
    ensures LargeList(s, after, blocks)
  {
    hide Distinct;
    forall i | 0 <= i < |s| ensures s[i] in after && after[s[i]] == before[s[i]] {
      assert s[i] in s;
    }
  }

  // Cutting a used block in two leaves both parts used.
  lemma UsedBlockCut(x: Space, total: nat, a: nat, size: nat)
    requires Good(x, total) && a in x.header && a !in x.blocks && 0 < size < x.header[a]
    ensures a + size !in x.header && Good(x.(header := Cut(x.header, a, size)), total)
    ensures UsedIn(Cut(x.header, a, size), x.blocks) == Cut(UsedIn(x.header, x.blocks), a, size)
  {
    hide Tiled, Lists, UsedIn;
    TiledCut(x.header, total, a, size);
    Retiled(x, total, Cut(x.header, a, size));
    UsedCut(x.header, x.blocks, a, size);
  }

  lemma LargeHas(x: Space, size: nat, i: nat)
    requires Lists(x.small, x.large, x.header, x.blocks) && size >= FreeListCount && i <= |x.large|
    requires forall j :: 0 <= j < |x.large| ==> x.large[j] in x.header && x.large[j] in x.blocks
    requires forall j :: 0 <= j < i ==> x.header[x.large[j]] < size
    requires i < |x.large| ==> x.header[x.large[i]] >= size
    ensures (exists b :: b in x.blocks && b in x.header && x.header[b] >= size) <==> i < |x.large|
    ensures i < |x.large| ==>
      forall b :: b in x.blocks && b in x.header && x.header[b] >= size ==> x.header[x.large[i]] <= x.header[b]
  {
    forall b | b in x.blocks && b in x.header && x.header[b] >= size
      ensures i < |x.large| && x.header[x.large[i]] <= x.header[b]
    {
      assert b in x.large;
      var j :| 0 <= j < |x.large| && x.large[j] == b;
    }
  }

  // The size of the page cut up when a small list is empty
  function PageFor(size: nat): nat
    requires size > 0
  {
    (PageSize + size - 1) / size * size
  }

  lemma EmptyRange(a: nat, size: nat)
    requires size == 0
    ensures Range(a, size) == {}
  {}

  // A length of n pieces
  ghost predicate Pieces(length: nat, n: nat, size: nat) { length == n * size }

  lemma PieceStep(length: nat, n: nat, size: nat)
    requires Pieces(length, n, size) && length > 0
    ensures n > 0 && size <= length && Pieces(length - size, n - 1, size)
  {
    assert n > 0;
    assert n * size == (n - 1) * size + size;
  }

  lemma Headed(x: Space, total: nat)
    requires Good(x, total)
    ensures forall b :: b in x.blocks ==> b in x.header
  {}

  // x with its page taken and split is y, and z has the pieces.
  lemma PageDone(x: Space, y: Space, z: Space, page: nat, size: nat)
    requires 0 < size && page in x.header && page in x.blocks && x.header[page] >= PageFor(size) > 0
    requires forall b :: b in x.blocks - {page} ==> b in x.header
    requires if x.header[page] == PageFor(size) then y.header == x.header && y.blocks == x.blocks - {page}
             else y.header == Cut(x.header, page, PageFor(size)) && page + PageFor(size) !in x.header
                  && y.blocks == x.blocks - {page} + {page + PageFor(size)}
    requires PiecesAdded(y, z, page, PageFor(size), size) && (forall b :: b in z.blocks ==> b in z.header)
    ensures forall b :: b in z.blocks ==> AfterCut(x, z, page, size, b)
  {
    hide PageFor;
  }

  lemma SmallShape(x: Space, total: nat)
    requires Good(x, total)
    ensures |x.small| == FreeListCount
  {}

  ghost function PagePieces(size: nat): (n: nat)
    requires 0 < size
    ensures Pieces(PageFor(size), n, size)
  {
    (PageSize + size - 1) / size
  }

  // The used blocks after a piece is cut off the front of one and freed
  ghost function PieceGone(used: map<nat, nat>, at: nat, size: nat): map<nat, nat>
    requires at in used && size <= used[at]
  {
    if size < used[at] then (used - {at})[at + size := used[at] - size] else used - {at}
  }

  lemma CutAt(t: map<nat, nat>, at: nat, size: nat)
    requires at in t && 0 < size < t[at]
    ensures at in Cut(t, at, size) && Cut(t, at, size)[at] == size
  {}

  // Cutting a used block leaves the free ones alone.
  lemma CutKeeps(x: Space, at: nat, size: nat)
    requires at in x.header && at !in x.blocks && at + size !in x.header && size <= x.header[at]
    ensures SameSizes(x, x.(header := Cut(x.header, at, size)))
  {}

  lemma PieceCut(used: map<nat, nat>, at: nat, size: nat)
    requires at in used && 0 < size <= used[at]
    ensures PieceGone(used, at, size) == if size < used[at] then Cut(used, at, size) - {at} else used - {at}
  {}

  lemma Removed(used: map<nat, nat>, a: nat)
    requires a in used
    ensures a !in used - {a} && used == (used - {a})[a := used[a]]
  {}

  lemma Restored(used: map<nat, nat>, a: nat, whole: nat, size: nat)
    requires a !in used
    ensures used[a := whole][a := size] - {a} == used
  {}

  lemma LinesRestored(lines: set<nat>, a: nat, whole: nat, size: nat)
    requires Range(a, whole) <= lines && size <= whole
    ensures lines - Range(a, whole) + Range(a + size, whole - size) + Range(a, size) == lines
  {
    hide Range;
    Subrange(a, whole, size, whole - size);
  }

  lemma AllotLines(lines: set<nat>, a: nat, whole: nat, size: nat)
    requires Range(a, whole) <= lines && size <= whole
    ensures Range(a, size) <= lines
    ensures lines - Range(a, whole) + Range(a + size, whole - size) == lines - Range(a, size)
  {
    hide Range;
    Subrange(a, whole, size, whole - size);
  }

  lemma PieceLines(lines: set<nat>, at: nat, left: nat, size: nat)
    requires size <= left
    ensures lines + Range(at, size) + Range(at + size, left - size) == lines + Range(at, left)
  {
    hide Range;
    Subrange(at, left, size, left - size);
  }

  lemma PieceGoneIs(others: map<nat, nat>, at: nat, left: nat, size: nat)
    requires at !in others && size <= left
    ensures var used := others[at := left];
            PieceGone(used, at, size) == if size < left then others[at + size := left - size] else others
  {
    assert others[at := left] - {at} == others;
  }

  // Whether a request can be met: from its small list or a page, or by a large block
  ghost predicate Serves(x: Space, size: nat)
    requires size > 0
  {
    if size < FreeListCount then (size < |x.small| && x.small[size] != []) || HasBlock(x, PageFor(size))
    else HasBlock(x, size)
  }

  ghost predicate HasBlock(x: Space, size: nat) {
    exists b :: b in x.blocks && b in x.header && x.header[b] >= size
  }

  // The smallest free block of at least the given size
  ghost predicate BestFit(x: Space, size: nat, a: nat) {
    && a in x.blocks && a in x.header && x.header[a] >= size
    && forall b :: b in x.blocks && b in x.header && x.header[b] >= size ==> x.header[a] <= x.header[b]
  }

  ghost function Last(s: seq<nat>): nat
    requires s != []
  {
    s[|s| - 1]
  }

  // Which block serves a request: the best fit for a large one; for a small one the last of its list, or, if that
  // is empty, the last piece of the best-fitting page.
  ghost predicate Chosen(x: Space, size: nat, a: nat)
    requires size > 0
  {
    if size >= FreeListCount then BestFit(x, size, a)
    else if Stocked(x, size) then a == Last(x.small[size])
    else exists page: nat :: BestFit(x, PageFor(size), page) && a + size == page + PageFor(size)
  }

  // Free blocks keep their sizes.
  ghost predicate SameSizes(x: Space, y: Space) {
    forall b :: b in x.blocks && b in x.header ==> b in y.header && y.header[b] == x.header[b]
  }

  // A piece of a page cut into blocks of the given size
  ghost predicate Piece(x: Space, page: nat, length: nat, size: nat, b: nat) {
    page <= b < page + length && b in x.header && x.header[b] == size
  }

  // The free blocks of y are those of x and pieces of the page.
  ghost predicate PiecesAdded(x: Space, y: Space, page: nat, length: nat, size: nat) {
    && SameSizes(x, y) && x.blocks <= y.blocks
    && forall b :: b in y.blocks && b !in x.blocks ==> Piece(y, page, length, size, b)
  }

  lemma NoneAdded(x: Space, page: nat, length: nat, size: nat)
    ensures PiecesAdded(x, x, page, length, size)
  {}

  lemma PieceAdded(x: Space, y: Space, z: Space, page: nat, length: nat, size: nat, at: nat)
    requires PiecesAdded(x, y, page, length, size) && SameSizes(y, z) && z.blocks == y.blocks + {at}
    requires page <= at < page + length && at in z.header && z.header[at] == size
    ensures PiecesAdded(x, z, page, length, size)
  {}

  // What a free block is after a page has been cut: one of the others, a piece, or what is left behind the page
  ghost predicate AfterCut(x: Space, y: Space, page: nat, size: nat, b: nat)
    requires size > 0
  {
    && b in y.header
    && (|| (b in x.blocks && b != page && b in x.header && y.header[b] == x.header[b])
        || Piece(y, page, PageFor(size), size, b)
        || (b == page + PageFor(size) && page in x.header && y.header[b] == x.header[page] - PageFor(size)))
  }

  // The list of the size has a block.
  ghost predicate Stocked(x: Space, size: nat) { size < |x.small| && x.small[size] != [] }

  // can_allot_p
  ghost predicate CanAllot(x: Space, size: nat) {
    HasBlock(x, if size > PageSize then size else PageSize)
  }

  lemma PageBounds(size: nat)
    requires 0 < size < FreeListCount
    ensures PageSize <= PageFor(size) < PageSize + size && (PageFor(size) == PageSize <==> PageSize % size == 0)
  {
    var q, r := (PageSize + size - 1) / size, (PageSize + size - 1) % size;
    assert PageSize + size - 1 == q * size + r;
    if PageSize % size == 0 {
      assert PageSize == PageSize / size * size;
      assert q == PageSize / size by {
        DivAdd(PageSize / size, size);
      }
    } else if PageFor(size) == PageSize {
      ModMul(q, size);
    }
  }

  lemma DivAdd(k: nat, size: nat)
    requires size > 0
    ensures (k * size + size - 1) / size == k
  {
    QuotientIs(k * size + size - 1, size, k, size - 1);
  }

  lemma ModMul(k: nat, size: nat)
    requires size > 0
    ensures k * size % size == 0
  {
    QuotientIs(k * size, size, k, 0);
  }

  // The lines of a deck: the size of a tenured space is a multiple of it.
  const DeckLines: nat := 16384

  // A deck whose first page is free and whose rest is one used block
  function OnePage(): Space {
    Space(seq(FreeListCount, k => []), [0], map[0 := PageSize, PageSize := DeckLines - PageSize], {0},
          set l: nat | 0 <= l < PageSize && InPage(l))
  }

  predicate InPage(l: nat) { l < PageSize }

  lemma OnePageGood()
    ensures Good(OnePage(), DeckLines)
  {
    var x := OnePage();
    forall k | 0 <= k < FreeListCount ensures SmallList(x.small[k], x.header, x.blocks, k) {
    }
    forall l | l in x.lines ensures exists a :: a in x.blocks && Within(l, a, x.header[a]) {
      assert 0 in x.blocks && Within(l, 0, x.header[0]);
    }
  }

  // can_allot_p promises success exactly for large requests and for sizes that divide a page. For the others
  // a deck with one free page is a counterexample.
  lemma CanAllotPromise(size: nat)
    requires size > 0
    ensures (forall x, total: nat :: total % DeckLines == 0 && Good(x, total) && CanAllot(x, size) ==> Serves(x, size))
       <==> (size >= FreeListCount || PageSize % size == 0)
  {
    if size >= FreeListCount || PageSize % size == 0 {
      if size < FreeListCount {
        PageBounds(size);
      }
    } else {
      PageBounds(size);
      OnePageGood();
      var x := OnePage();
      assert 0 in x.blocks && 0 in x.header && x.header[0] >= PageSize;
      assert DeckLines % DeckLines == 0 && Good(x, DeckLines) && CanAllot(x, size) && !Serves(x, size);
    }
  }

  // A block is on the large list, or smaller than any block there.
  lemma LargeOrSmall(x: Space, b: nat)
    requires Lists(x.small, x.large, x.header, x.blocks) && x.large != [] && b in x.blocks && b in x.header
    requires forall i :: 0 <= i < |x.large| ==> x.large[i] in x.header && x.header[x.large[i]] >= FreeListCount
    ensures x.header[b] <= x.header[x.large[|x.large| - 1]]
  {
    if x.header[b] >= FreeListCount {
      assert b in x.large;
      var j :| 0 <= j < |x.large| && x.large[j] == b;
    }
  }

  // ----- sweeping

  // A block is bounded by marked lines or the ends of the space.
  ghost predicate MaximalRuns(x: Space, total: nat, bits: seq<Word>) {
    && total == WordBits * |bits|
    && forall b :: b in x.blocks ==>
         && b in x.header && b + x.header[b] <= total
         && (b > 0 ==> Marked(bits, b - 1)) && (b + x.header[b] < total ==> Marked(bits, b + x.header[b]))
  }

  // The free lines are the unmarked ones below start.
  ghost predicate FreeBelow(x: Space, total: nat, bits: seq<Word>, start: nat) {
    && MaximalRuns(x, total, bits) && start <= total
    && (forall l :: l in x.lines <==> 0 <= l < start && !Marked(bits, l))
  }

  // After a run of marked lines
  lemma SkipMarked(x: Space, total: nat, bits: seq<Word>, start: nat, next: nat)
    requires FreeBelow(x, total, bits, start) && (0 < start < total ==> Marked(bits, start)) && start <= next <= total
    requires forall l :: start <= l < next ==> Marked(bits, l)
    ensures FreeBelow(x, total, bits, next)
    ensures 0 < next < total && !Marked(bits, next) ==> Marked(bits, next - 1)
  {
    hide Marked;
  }

  // A maximal run of unmarked lines joins the free list.
  lemma RunAdded(x: Space, total: nat, bits: seq<Word>, start: nat, size: nat, y: Space)
    requires FreeBelow(x, total, bits, start) && start + size <= total && (start > 0 ==> Marked(bits, start - 1))
    requires forall l :: start <= l < start + size ==> !Marked(bits, l)
    requires start + size < total ==> Marked(bits, start + size)
    requires forall b :: b in x.blocks && b in x.header ==> b in y.header && y.header[b] == x.header[b]
    requires start in y.header && y.header[start] == size
    requires y.blocks == x.blocks + {start} && y.lines == x.lines + Range(start, size)
    ensures FreeBelow(y, total, bits, start + size)
  {
    hide Marked;
  }

  // Whether there is a line here, and it is marked
  ghost predicate On(bits: seq<Word>, line: nat) { line < WordBits * |bits| && Marked(bits, line) }

  // Marks cover whole blocks.
  ghost predicate Whole(t: map<nat, nat>, bits: seq<Word>) {
    forall a, l: nat :: a in t && Within(l, a, t[a]) ==> (On(bits, l) <==> On(bits, a))
  }

  // A line whose mark differs from that of the line before it begins a block.
  lemma Boundary(t: map<nat, nat>, total: nat, bits: seq<Word>, at: nat)
    requires Tiled(t, total) && Whole(t, bits) && 0 < at < total && (On(bits, at) <==> !On(bits, at - 1))
    ensures at in t
  {
    hide Tiled, On;
    var a := Containing(t, total, at);
    assert Within(at, a, t[a]);
    assert a < at ==> Within(at - 1, a, t[a]);
  }

  // Blocks from start on stand as they were; those before it are used if they were marked and free otherwise.
  ghost predicate SweptTo(x: Space, t: map<nat, nat>, total: nat, bits: seq<Word>, start: nat) {
    && (start < total ==> start in t)
    && (forall a :: a in x.blocks ==> a < start)
    && (forall a: nat :: a >= start ==> (a in x.header <==> a in t) && (a in t ==> x.header[a] == t[a]))
    && (forall a: nat :: a < start ==> (a in UsedIn(x.header, x.blocks) <==> a in t && On(bits, a)))
    && (forall a: nat :: a < start && a in UsedIn(x.header, x.blocks) && a in t ==> x.header[a] == t[a])
  }

  lemma SweptPastMarked(x: Space, t: map<nat, nat>, total: nat, bits: seq<Word>, start: nat, next: nat)
    requires SweptTo(x, t, total, bits, start) && start <= next <= total
    requires (forall l :: start <= l < next ==> On(bits, l)) && (next < total ==> !On(bits, next))
    requires Tiled(t, total) && Whole(t, bits)
    ensures SweptTo(x, t, total, bits, next)
  {
    hide Tiled, On, Whole;
    if start < next < total {
      Boundary(t, total, bits, next);
    }
  }

  lemma SweptPastRun(x: Space, t: map<nat, nat>, total: nat, bits: seq<Word>, start: nat, size: nat)
    requires SweptTo(x, t, total, bits, start) && start + size <= total && size > 0
    requires forall l :: start <= l < start + size ==> !On(bits, l)
    requires start + size < total ==> On(bits, start + size)
    requires Tiled(t, total) && Whole(t, bits) && Good(x, total)
    ensures start in x.header && start !in x.blocks && Good(x.(header := Merged(x.header, start, size)), total)
    ensures var y := x.(header := Merged(x.header, start, size), blocks := x.blocks + {start});
            SweptTo(y, t, total, bits, start + size)
  {
    hide Tiled, On, Whole, Lists;
    if start + size < total {
      Boundary(t, total, bits, start + size);
    }
    TiledMerged(x.header, total, start, size);
    Retiled(x, total, Merged(x.header, start, size));
  }

  // The merged header leaves those of free blocks alone.
  lemma SweptBlocks(x: Space, t: map<nat, nat>, total: nat, bits: seq<Word>, start: nat, size: nat)
    requires SweptTo(x, t, total, bits, start) && start in x.header
    ensures var header := Merged(x.header, start, size);
            && (forall b :: b in x.blocks && b in x.header ==> b in header && header[b] == x.header[b])
            && start in header && header[start] == size
  {
    hide On, UsedIn;
  }

  lemma SweptSame(x: Space, y: Space, t: map<nat, nat>, total: nat, bits: seq<Word>, start: nat)
    requires SweptTo(x, t, total, bits, start) && y.header == x.header && y.blocks == x.blocks
    ensures SweptTo(y, t, total, bits, start)
  {}

  // The blocks that were marked
  ghost function MarkedIn(t: map<nat, nat>, bits: seq<Word>): map<nat, nat> {
    map a | a in t && On(bits, a) :: t[a]
  }

  lemma SweptAll(x: Space, t: map<nat, nat>, blocks: set<nat>, total: nat, bits: seq<Word>)
    requires SweptTo(x, t, total, bits, total) && Tiled(t, total) && Tiled(x.header, total)
    requires forall a :: a in blocks ==> !On(bits, a)
    ensures UsedIn(x.header, x.blocks) == MarkedIn(UsedIn(t, blocks), bits)
  {
    hide Tiled, On;
    forall a | a in t ensures a < total {
      TileAt(t, total, a);
    }
    forall a | a in x.header ensures a < total {
      TileAt(x.header, total, a);
    }
  }

  class Allocator {
    const total: nat
    var small: seq<seq<nat>>
    var large: seq<nat>
    var header: map<nat, nat>
    var freeBlockCount: nat
    var freeSpace: nat
    var blocks: set<nat>
    ghost var lines: set<nat>

    ghost function Now(): Space
      reads this
    {
      Space(small, large, header, blocks, lines)
    }

    // The used blocks and their sizes
    ghost function Used(): map<nat, nat>
      reads this
    {
      UsedIn(header, blocks)
    }

    // Blocks tile the space, the lists hold the free ones, and the counters count them.
    ghost predicate Valid()
      reads this
    {
      Good(Now(), total) && freeBlockCount == |blocks| && freeSpace == |lines|
    }

    // A space all of it free
    constructor(lines: nat)
      ensures Valid() && total == lines && this.lines == Range(0, lines) && Used() == map[]
    {
      total, header := lines, map[];
      small, large, freeBlockCount, freeSpace := [], [], 0, 0;
      blocks, this.lines := {}, {};
      new;
      InitialFreeList(0, map[]);
    }

    // add_to_free_list of a block that is on no list
    method AddToFreeList(a: nat)
      requires Valid() && a in Used()
      modifies this
      ensures Valid() && header == old(header) && blocks == old(blocks) + {a} && Used() == old(Used()) - {a}
      ensures Range(a, header[a]) !! old(lines) && lines == old(lines) + Range(a, header[a])
      ensures header[a] < FreeListCount ==>
        header[a] < |small| && small[header[a]] != [] && Last(small[header[a]]) == a
    {
      hide Lists, Covers, Tiled;
      ghost var x := Now();
      ListsShape(small, large, header, blocks);
      var size := header[a];
      if size < FreeListCount {
        ListsAddSmall(small, large, header, blocks, a);
        small := small[size := small[size] + [a]];
      } else {
        var i := Position(a);
        ListsAddLarge(small, large, header, blocks, a, i);
        large := Inserted(large, i, a);
      }
      blocks, lines := blocks + {a}, lines + Range(a, size);
      freeBlockCount, freeSpace := freeBlockCount + 1, freeSpace + size;
      GoodAdd(x, total, a, Now());
    }

    // Where a block goes on the large list: after those not larger
    method Position(a: nat) returns (i: nat)
      requires Lists(small, large, header, blocks) && a in header
      ensures i <= |large| && SizeOrder(Inserted(large, i, a), header)
    {
      i := 0;
      while i < |large| && header[large[i]] <= header[a]
        invariant i <= |large| && forall j :: 0 <= j < i ==> header[large[j]] <= header[a]
      {
        i := i + 1;
      }
      InsertedInOrder(large, header, a, i);
    }

    // split_free_block: keep the first `size` lines of a block taken off the lists, free the rest
    method SplitFreeBlock(a: nat, size: nat)
      requires Valid() && a in Used() && 0 < size <= Used()[a]
      modifies this
      ensures Valid() && Used() == old(Used())[a := size]
      ensures lines == old(lines) + Range(a + size, old(header)[a] - size)
      ensures old(header)[a] == size ==> header == old(header) && blocks == old(blocks)
      ensures old(header)[a] != size ==> header == Cut(old(header), a, size) && blocks == old(blocks) + {a + size}
      ensures old(header)[a] != size ==> a + size !in old(header)
    {
      hide Good, Range;
      if header[a] != size {
        UsedBlockCut(Now(), total, a, size);
        header := Cut(header, a, size);
        AddToFreeList(a + size);
        assert Used() == old(Used())[a := size];
      } else {
        EmptyRange(a + size, header[a] - size);
      }
    }

    // The first large block of at least the given size, or none
    method LowerBound(size: nat) returns (i: nat)
      requires Lists(small, large, header, blocks)
      ensures i <= |large| && (forall j :: 0 <= j < |large| ==> large[j] in header && large[j] in blocks)
      ensures i < |large| ==> header[large[i]] >= size
      ensures forall j :: 0 <= j < i ==> header[large[j]] < size
    {
      ListsShape(small, large, header, blocks);
      i := 0;
      while i < |large| && header[large[i]] < size
        invariant i <= |large| && forall j :: 0 <= j < i ==> header[large[j]] < size
      {
        i := i + 1;
      }
    }

    // find_free_block for a large size: the best fit
    method FindLarge(size: nat) returns (ok: bool, a: nat)
      requires Valid() && size >= FreeListCount
      modifies this
      ensures Valid() && header == old(header)
      ensures ok <==> HasBlock(old(Now()), size)
      ensures !ok ==> Now() == old(Now())
      ensures ok ==> a in old(blocks) && a in header && header[a] >= size
      ensures ok ==> Range(a, header[a]) <= old(lines) && a + header[a] <= total
      ensures ok ==> BestFit(old(Now()), size, a)
      ensures ok ==> lines == old(lines) - Range(a, header[a]) && blocks == old(blocks) - {a} && small == old(small)
      ensures ok ==> a !in old(Used()) && Used() == old(Used())[a := header[a]]
    {
      hide Covers, Tiled, Range, UsedIn, Lists;
      var i := LowerBound(size);
      LargeHas(Now(), size, i);
      if i < |large| {
        ghost var x := Now();
        a := large[i];
        ListsPopLarge(small, large, header, blocks, i);
        large := Without(large, i);
        blocks, lines := blocks - {a}, lines - Range(a, header[a]);
        GoodRemove(x, total, a, Now());
        freeBlockCount, freeSpace := freeBlockCount - 1, freeSpace - header[a];
        return true, a;
      } else {
        return false, 0;
      }
    }

    // find_free_block when the small list of the size is not empty
    method PopSmall(size: nat) returns (a: nat)
      requires Valid() && size < FreeListCount && size < |small| && small[size] != []
      modifies this
      ensures Valid() && header == old(header) && a in header && header[a] == size
      ensures a == Last(old(small)[size]) && blocks == old(blocks) - {a}
      ensures Range(a, size) <= old(lines) && a + size <= total && lines == old(lines) - Range(a, size)
      ensures a !in old(Used()) && Used() == old(Used())[a := size]
    {
      hide Covers, Tiled, Range, UsedIn, SmallList, LargeList;
      ghost var x := Now();
      ListsPopSmall(small, large, header, blocks, size);
      var last := |small[size]| - 1;
      a := small[size][last];
      small := small[size := small[size][..last]];
      blocks, lines := blocks - {a}, lines - Range(a, header[a]);
      GoodRemove(x, total, a, Now());
      freeBlockCount, freeSpace := freeBlockCount - 1, freeSpace - size;
    }

    // Cut a page into blocks of a small size
    method CutPage(size: nat) returns (ok: bool, ghost page: nat)
      requires Valid() && 0 < size < FreeListCount
      modifies this
      ensures Valid() && lines == old(lines) && Used() == old(Used())
      ensures ok <==> HasBlock(old(Now()), PageFor(size))
      ensures ok ==> size < |small| && small[size] != [] && Last(small[size]) + size == page + PageFor(size)
      ensures ok ==> BestFit(old(Now()), PageFor(size), page)
      ensures ok ==> forall b :: b in blocks ==> AfterCut(old(Now()), Now(), page, size, b)
      ensures !ok ==> Now() == old(Now())
    {
      hide Good, Range, PageFor, UsedIn, HasBlock, BestFit, PiecesAdded, AfterCut;
      PageBounds(size);
      var length := PageFor(size);
      ghost var pieces := PagePieces(size);
      var block;
      ok, block := FindLarge(length);
      page := block;
      if !ok {
        return;
      }
      ghost var whole := header[block];
      UsedHas(header, blocks, block);
      Headed(Now(), total);
      SplitFreeBlock(block, length);
      ghost var x := Now();
      CutPieces(block, size, pieces, length);
      Headed(Now(), total);
      PageDone(old(Now()), x, Now(), block, size);
      Restored(old(Used()), block, whole, length);
      LinesRestored(old(lines), block, whole, length);
    }

    // Cut one piece off the front of a block being cut up, and add it to the free list
    method CutPiece(at: nat, size: nat)
      requires Valid() && at in Used() && 0 < size <= Used()[at] && size < FreeListCount
      modifies this
      ensures Valid() && lines == old(lines) + Range(at, size)
      ensures size < old(Used())[at] ==> at + size !in old(Used())
      ensures Used() == PieceGone(old(Used()), at, size)
      ensures blocks == old(blocks) + {at} && at in header && header[at] == size
      ensures SameSizes(old(Now()), Now())
      ensures size < |small| && small[size] != [] && Last(small[size]) == at
    {
      hide Good, Range, UsedIn, Cut, PieceGone;
      UsedHas(header, blocks, at);
      PieceCut(Used(), at, size);
      if size < header[at] {
        UsedBlockCut(Now(), total, at, size);
        UsedHas(header, blocks, at + size);
        CutKeeps(Now(), at, size);
        header := Cut(header, at, size);
        CutAt(old(header), at, size);
        UsedHas(header, blocks, at);
      }
      AddToFreeList(at);
    }

    // Add the pieces of a page to the free list
    method CutPieces(page: nat, size: nat, ghost pieces: nat, length: nat)
      requires Valid() && 0 < size < FreeListCount && length > 0 && Pieces(length, pieces, size)
      requires page in Used() && Used()[page] == length
      modifies this
      ensures Valid() && lines == old(lines) + Range(page, length) && Used() == old(Used()) - {page}
      ensures PiecesAdded(old(Now()), Now(), page, length, size)
      ensures size < |small| && small[size] != [] && Last(small[size]) + size == page + length
    {
      hide Good, Range, Pieces, UsedIn, PieceGone, PiecesAdded, SameSizes;
      ghost var others := old(Used()) - {page};
      var at: nat, left: nat := page, length;
      ghost var n := pieces;
      Removed(Used(), page);
      NoneAdded(Now(), page, length, size);
      while left > 0
        invariant Pieces(left, n, size) && Valid()
        invariant lines + Range(at, left) == old(lines) + Range(page, length)
        invariant (left > 0 ==> at !in others) && Used() == if left > 0 then others[at := left] else others
        invariant at + left == page + length && PiecesAdded(old(Now()), Now(), page, length, size)
        invariant left < length ==> size < |small| && small[size] != [] && Last(small[size]) + size == at
        decreases left
      {
        PieceStep(left, n, size);
        PieceLines(lines, at, left, size);
        ghost var x := Now();
        CutPiece(at, size);
        PieceAdded(old(Now()), x, Now(), page, length, size, at);
        PieceGoneIs(others, at, left, size);
        at, left, n := at + size, left - size, n - 1;
      }
      EmptyRange(at, left);
    }

    // find_free_block
    method FindFreeBlock(size: nat) returns (ok: bool, a: nat)
      requires Valid() && size > 0
      modifies this
      ensures Valid() && (ok <==> Serves(old(Now()), size))
      ensures !ok ==> lines == old(lines) && Used() == old(Used())
      ensures ok ==> a in header && header[a] >= size && Range(a, header[a]) <= old(lines) && a + header[a] <= total
      ensures ok ==> lines == old(lines) - Range(a, header[a])
      ensures ok ==> a !in old(Used()) && Used() == old(Used())[a := header[a]]
      ensures ok ==> Chosen(old(Now()), size, a) && (size < FreeListCount ==> header[a] == size)
      ensures ok && (size >= FreeListCount || Stocked(old(Now()), size)) ==>
        header == old(header) && blocks == old(blocks) - {a}
    {
      hide Good, Range, BestFit, PageFor;
      SmallShape(Now(), total);
      if size < FreeListCount {
        if small[size] == [] {
          ghost var page;
          ok, page := CutPage(size);
          if !ok {
            return false, 0;
          }
        }
        a := PopSmall(size);
        ok := true;
      } else {
        ok, a := FindLarge(size);
      }
    }

    // allot: a block of exactly the size asked for, made of lines that were free, joins the used ones
    method Allot(size: nat) returns (ok: bool, a: nat)
      requires Valid() && size > 0
      modifies this
      ensures Valid() && (ok <==> Serves(old(Now()), size))
      ensures !ok ==> lines == old(lines) && Used() == old(Used())
      ensures ok ==> a + size <= total && Range(a, size) <= old(lines) && lines == old(lines) - Range(a, size)
      ensures ok ==> a !in old(Used()) && Used() == old(Used())[a := size]
      ensures ok ==> Chosen(old(Now()), size, a)
      ensures ok && size < FreeListCount && Stocked(old(Now()), size) ==>
        header == old(header) && blocks == old(blocks) - {a}
      ensures ok && size >= FreeListCount ==> a in old(header) && old(header)[a] >= size
      ensures ok && size >= FreeListCount && old(header)[a] == size ==>
        header == old(header) && blocks == old(blocks) - {a}
      ensures ok && size >= FreeListCount && old(header)[a] > size ==>
        header == Cut(old(header), a, size) && blocks == old(blocks) - {a} + {a + size}
    {
      hide Good, Range, Serves, Chosen, UsedIn, Cut, Stocked;
      ok, a := FindFreeBlock(size);
      if ok {
        UsedHas(header, blocks, a);
        AllotLines(old(lines), a, header[a], size);
        SplitFreeBlock(a, size);
      }
    }

    // free: a used block becomes free, and its lines with it
    method Free(a: nat)
      requires Valid() && a in Used()
      modifies this
      ensures Valid() && Used() == old(Used()) - {a}
      ensures Range(a, old(header)[a]) !! old(lines) && lines == old(lines) + Range(a, old(header)[a])
    {
      AddToFreeList(a);
    }

    // largest_free_block
    method LargestFreeBlock() returns (r: nat)
      requires Valid()
      ensures forall b :: b in blocks ==> b in header && header[b] <= r
      ensures r > 0 ==> HasBlock(Now(), r)
    {
      hide Range, Within;
      ListsShape(small, large, header, blocks);
      if large != [] {
        r := header[large[|large| - 1]];
        assert large[|large| - 1] in blocks;
        forall b | b in blocks ensures header[b] <= r {
          LargeOrSmall(Now(), b);
        }
      } else {
        var i := FreeListCount;
        while i > 0
          invariant 0 <= i <= FreeListCount
          invariant forall b :: b in blocks ==> b in header && header[b] < i
        {
          i := i - 1;
          assert SmallList(small[i], header, blocks, i);
          if small[i] != [] {
            var b := small[i][|small[i]| - 1];
            assert b in small[i];
            return header[b];
          }
        }
        r := 0;
      }
    }

    // can_allot_p
    method CanAllotP(size: nat) returns (ok: bool)
      requires Valid()
      ensures ok <==> CanAllot(Now(), size)
    {
      hide Good;
      var largest := LargestFreeBlock();
      ok := largest >= if size > PageSize then size else PageSize;
    }

    // clear_free_list
    method ClearFreeList()
      requires Tiled(header, total)
      modifies this
      ensures Valid() && lines == {} && blocks == {} && header == old(header)
    {
      small, large := seq(FreeListCount, k => []), [];
      freeBlockCount, freeSpace := 0, 0;
      blocks, lines := {}, {};
    }

    // initial_free_list: the kept blocks below `occupied` are used, and one free block follows them
    method InitialFreeList(occupied: nat, kept: map<nat, nat>)
      requires occupied <= total && Tiled(kept, occupied)
      modifies this
      ensures Valid() && lines == Range(occupied, total - occupied) && Used() == kept
    {
      hide Good, Range, Tiled;
      header := kept;
      if occupied != total {
        TiledAppend(kept, occupied, total - occupied);
        header := kept[occupied := total - occupied];
      }
      ClearFreeList();
      if occupied != total {
        AddToFreeList(occupied);
      } else {
        EmptyRange(occupied, total - occupied);
      }
      assert Used() == kept;
    }

    // sweep: the free blocks become the maximal runs of unmarked lines, and the marked blocks stay as they were
    method Sweep(state: Bitmap)
      requires Valid() && state.Size() == LineSize * total
      requires Whole(header, state.marked[..]) && forall a :: a in blocks ==> !On(state.marked[..], a)
      modifies this
      ensures Valid() && total == WordBits * state.marked.Length
      ensures forall l :: l in lines <==> 0 <= l < total && !Marked(state.marked[..], l)
      ensures MaximalRuns(Now(), total, state.marked[..])
      ensures Used() == MarkedIn(old(Used()), state.marked[..])
    {
      hide Marked, Range, FreeBelow, MaximalRuns, Whole, SweptTo, Lists, Covers, Tiled, UsedIn;
      ghost var t, free := header, blocks;
      ClearFreeList();
      ghost var bits := state.marked[..];
      SweepStart(Now(), t, total, bits);
      var start := 0;
      while start != total
        invariant start <= total && Valid() && bits == state.marked[..] && total == WordBits * |bits|
        invariant FreeBelow(Now(), total, bits, start) && SweptTo(Now(), t, total, bits, start)
        invariant 0 < start < total ==> Marked(bits, start)
        decreases total - start
      {
        var next := state.UnmarkedLine(start);
        assert state.marked[..] == bits;
        SkipMarked(Now(), total, bits, start, next);
        assert forall l :: start <= l < next ==> On(bits, l);
        SweptPastMarked(Now(), t, total, bits, start, next);
        start := next;
        if start != total {
          var end := state.MarkedLine(start);
          assert state.marked[..] == bits;
          start := SweepRun(bits, t, start, end - start);
        }
      }
      SweepEnd(Now(), total, bits);
      SweptAll(Now(), t, free, total, bits);
    }

    // One run of unmarked lines: its first header is made to span it, and the block goes on the free list.
    method SweepRun(ghost bits: seq<Word>, ghost t: map<nat, nat>, start: nat, size: nat) returns (end: nat)
      requires Valid() && size > 0 && start + size <= total == WordBits * |bits|
      requires (start > 0 ==> Marked(bits, start - 1)) && (start + size < total ==> Marked(bits, start + size))
      requires forall l :: start <= l < start + size ==> !Marked(bits, l)
      requires FreeBelow(Now(), total, bits, start) && SweptTo(Now(), t, total, bits, start)
      requires Tiled(t, total) && Whole(t, bits)
      modifies this
      ensures Valid() && end == start + size
      ensures FreeBelow(Now(), total, bits, end) && SweptTo(Now(), t, total, bits, end)
    {
      hide Marked, On, Range, FreeBelow, SweptTo, Whole, Lists, Covers, Tiled, UsedIn;
      ghost var x := Now();
      RunOff(bits, start, size);
      SweptPastRun(x, t, total, bits, start, size);
      header := Merged(header, start, size);
      assert start in Used() by {
        UsedHas(header, blocks, start);
      }
      AddToFreeList(start);
      RunAdded(x, total, bits, start, size, Now()) by {
        SweptBlocks(x, t, total, bits, start, size);
      }
      end := start + size;
      SweptSame(x.(header := Merged(x.header, start, size), blocks := x.blocks + {start}), Now(), t, total, bits, end);
    }
  }

  lemma RunOff(bits: seq<Word>, start: nat, size: nat)
    requires start + size <= WordBits * |bits| && forall l :: start <= l < start + size ==> !Marked(bits, l)
    requires start + size < WordBits * |bits| ==> Marked(bits, start + size)
    ensures forall l :: start <= l < start + size ==> !On(bits, l)
    ensures start + size < WordBits * |bits| ==> On(bits, start + size)
  {}

  lemma UsedHas(header: map<nat, nat>, blocks: set<nat>, a: nat)
    ensures a in UsedIn(header, blocks) <==> a in header && a !in blocks
    ensures a in UsedIn(header, blocks) ==> UsedIn(header, blocks)[a] == header[a]
  {}

  lemma SweepStart(x: Space, t: map<nat, nat>, total: nat, bits: seq<Word>)
    requires x.blocks == {} && x.lines == {} && x.header == t && Tiled(t, total) && total == WordBits * |bits|
    ensures FreeBelow(x, total, bits, 0) && SweptTo(x, t, total, bits, 0)
  {}

  lemma SweepEnd(x: Space, total: nat, bits: seq<Word>)
    requires FreeBelow(x, total, bits, total)
    ensures MaximalRuns(x, total, bits) && total == WordBits * |bits|
    ensures forall l :: l in x.lines <==> 0 <= l < total && !Marked(bits, l)
  {}
}
