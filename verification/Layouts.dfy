/** Tagged words and object layouts (vm/layouts.hpp, vm/slot_visitor.hpp). Memory is a sequence of
    words; addresses count words from the start of the space and objects start on even addresses. */
module Layouts {
  type Cell = nat

  // A card is 256 bytes.
  const CardCells: nat := 32

  const FixnumType: nat := 0
  const FType: nat := 1
  const ArrayType: nat := 2
  const FloatType: nat := 3
  const QuotationType: nat := 4
  const BignumType: nat := 5
  const AlienType: nat := 6
  const TupleType: nat := 7
  const WrapperType: nat := 8
  const ByteArrayType: nat := 9
  const CallstackType: nat := 10
  const StringType: nat := 11
  const WordType: nat := 12
  const DllType: nat := 13

  // The low four bits of a value are its tag; the rest of a pointer is a byte address.
  function Tag(c: Cell): nat { c % 16 }

  function Address(c: Cell): nat { c / 16 * 2 }

  predicate Immediate(c: Cell) { Tag(c) <= FType }

  function UntagFixnum(c: Cell): nat { c / 16 }

  function Retag(address: nat, tag: nat): (c: Cell)
    requires address % 2 == 0 && tag < 16
    ensures Tag(c) == tag && Address(c) == address
  {
    address / 2 * 16 + tag
  }

  // Bit 0 of a header says free; bits 2-5 hold the type.
  predicate FreeP(header: Cell) { header % 2 == 1 }

  function Type(header: Cell): nat { header / 4 % 16 }

  predicate KnownType(header: Cell) {
    ArrayType <= Type(header) <= DllType
  }

  // A byte count, rounded up to 16 bytes, in cells
  function Aligned(bytes: nat): (cells: nat)
    ensures cells % 2 == 0 && bytes <= 8 * cells < bytes + 16
  {
    (bytes + 15) / 16 * 2
  }

  // The size in cells of an object, from its first two cells and, for a tuple, the size cell of its layout
  function ObjectSize(header: Cell, second: Cell, layoutSize: Cell): (size: nat)
    requires KnownType(header)
    ensures size % 2 == 0 && size >= 2
  {
    var t := Type(header);
    if t == ArrayType || t == BignumType then Aligned(16 + UntagFixnum(second) * 8)
    else if t == ByteArrayType || t == CallstackType then Aligned(16 + UntagFixnum(second))
    else if t == StringType then Aligned(32 + UntagFixnum(second))
    else if t == TupleType then Aligned(16 + UntagFixnum(layoutSize) * 8)
    else if t == QuotationType then Aligned(5 * 8)
    else if t == WordType then Aligned(10 * 8)
    else if t == FloatType then Aligned(2 * 8)
    else if t == DllType then Aligned(3 * 8)
    else if t == AlienType then Aligned(5 * 8)
    else Aligned(2 * 8)
  }

  // The number of cells after the header that hold tagged values; they always lie inside the object.
  function SlotCount(header: Cell, second: Cell, layoutSize: Cell): (count: nat)
    requires KnownType(header)
    ensures count < ObjectSize(header, second, layoutSize)
  {
    var t := Type(header);
    if t == ArrayType then 1 + UntagFixnum(second)
    else if t == TupleType then 1 + UntagFixnum(layoutSize)
    else if t == FloatType || t == ByteArrayType || t == BignumType || t == CallstackType then 0
    else if t == WordType then 8
    else if t == AlienType then 2
    else if t == DllType then 1
    else if t == QuotationType || t == StringType then 3
    else 1
  }

  // ----- the structs behind the counts

  // A cell of a struct after its header: one that is scanned, or one that never refers to an object. The length
  // of an object that refers to nothing is of the second kind.
  datatype Field = Tagged(name: string) | Raw(name: string)

  // By type number, in the order of the numbers
  function Fields(t: nat): seq<Field>
    requires 2 <= t <= 13
  {
    if t == 2 then [Tagged("capacity")]
    else if t == 3 then [Raw("n")]
    else if t == 4 then [Tagged("array"), Tagged("cached_effect"), Tagged("cache_counter"), Raw("entry_point")]
    else if t == 5 then [Raw("capacity")]
    else if t == 6 then [Tagged("base"), Tagged("expired"), Raw("displacement"), Raw("address")]
    else if t == 7 then [Tagged("layout")]
    else if t == 8 then [Tagged("object")]
    else if t == 9 then [Raw("capacity")]
    else if t == 10 then [Raw("length")]
    else if t == 11 then [Tagged("length"), Tagged("aux"), Tagged("hashcode")]
    else if t == 12 then
      [Tagged("hashcode"), Tagged("name"), Tagged("vocabulary"), Tagged("def"), Tagged("props"), Tagged("pic_def"),
       Tagged("pic_tail_def"), Tagged("subprimitive"), Raw("entry_point")]
    else [Tagged("path"), Raw("handle")]
  }

  // What follows the struct: values, raw cells, or bytes
  datatype Rest = Values(count: nat) | Cells(count: nat) | Bytes(count: nat)

  // An array's elements and a tuple's slots; a bignum's digits; the bytes of byte arrays, callstacks and strings
  function RestOf(t: nat, second: Cell, layoutSize: Cell): Rest {
    if t == 2 then Values(UntagFixnum(second))
    else if t == 7 then Values(UntagFixnum(layoutSize))
    else if t == 5 then Cells(UntagFixnum(second))
    else if t == 9 || t == 10 || t == 11 then Bytes(UntagFixnum(second))
    else Bytes(0)
  }

  // Cell i of an object is a tagged field of its struct or one of the values after it.
  predicate HoldsValue(header: Cell, second: Cell, layoutSize: Cell, i: nat)
    requires KnownType(header)
  {
    var fields, rest := Fields(Type(header)), RestOf(Type(header), second, layoutSize);
    (1 <= i <= |fields| && fields[i - 1].Tagged?) || (rest.Values? && |fields| < i <= |fields| + rest.count)
  }

  // The cells scanned are exactly those that hold values.
  lemma ScannedCells(header: Cell, second: Cell, layoutSize: Cell, i: nat)
    requires KnownType(header)
    ensures 1 <= i <= SlotCount(header, second, layoutSize) <==> HoldsValue(header, second, layoutSize, i)
  {}

  // All elements of an array and all slots of a tuple are among them, and nothing behind the last one is.
  lemma ElementsScanned(header: Cell, second: Cell, layoutSize: Cell, e: nat)
    requires Type(header) == ArrayType || Type(header) == TupleType
    ensures var n := UntagFixnum(if Type(header) == ArrayType then second else layoutSize);
            2 + e <= SlotCount(header, second, layoutSize) <==> e < n
  {}

  // The bytes of the struct and of what follows it
  function BytesOf(header: Cell, second: Cell, layoutSize: Cell): nat
    requires KnownType(header)
  {
    var rest := RestOf(Type(header), second, layoutSize);
    8 * (1 + |Fields(Type(header))|) + if rest.Bytes? then rest.count else 8 * rest.count
  }

  // An object is as large as its struct and what follows it, rounded up to whole lines.
  lemma SizeOfFields(header: Cell, second: Cell, layoutSize: Cell)
    requires KnownType(header)
    ensures var size := ObjectSize(header, second, layoutSize);
            size % 2 == 0 && BytesOf(header, second, layoutSize) <= 8 * size < BytesOf(header, second, layoutSize) + 16
  {}

  // object::initialize and set_hashcode: the type is read back whatever the hash code, and the object is not free.
  lemma HeaderParts(t: nat, hashcode: nat)
    requires t < 16
    ensures var header := t * 4 + hashcode * 64; Type(header) == t && !FreeP(header)
  {
    assert t * 4 + hashcode * 64 == 4 * (t + hashcode * 16);
  }
}
