/** Base64 with and without line breaks (basis/base64/base64.factor). Bytes and characters are numbers
    from 0 to 255. */
module Base64 {
  import opened Bits

  type Byte = b: int | 0 <= b < 256

  const Pad: Byte := 61
  const Cr: Byte := 13
  const Lf: Byte := 10
  const LineLength: nat := 76

  // ch>base64
  function Letter(i: int): Byte
    requires 0 <= i < 64
  {
    if i < 26 then 65 + i else if i < 52 then 71 + i else if i < 62 then i - 4 else if i == 62 then 43 else 47
  }

  // base64>ch: -1 stands for the error; padding reads as zero
  function Index(c: Byte): int {
    if 65 <= c <= 90 then c - 65 else if 97 <= c <= 122 then c - 71 else if 48 <= c <= 57 then c + 4
    else if c == 43 then 62 else if c == 47 then 63 else if c == Pad then 0 else -1
  }

  // The 64 characters of table 1 of RFC 4648, in order
  const Upper: string := "ABCDEFGHIJKLMNOPQRSTUVWXYZ"
  const Lower: string := "abcdefghijklmnopqrstuvwxyz"
  const Others: string := "0123456789+/"
  const Alphabet: string := Upper + Lower + Others

  lemma UpperLetter(i: int)
    requires 0 <= i < 26
    ensures |Upper| == 26 && Upper[i] as int == Letter(i)
  {
    assert i / 8 == 0 || i / 8 == 1 || i / 8 == 2 || i / 8 == 3;
    assert i % 4 == 0 || i % 4 == 1 || i % 4 == 2 || i % 4 == 3;
    assert i % 8 == i % 4 || i % 8 == i % 4 + 4;
  }

  lemma LowerLetter(i: int)
    requires 0 <= i < 26
    ensures |Lower| == 26 && Lower[i] as int == Letter(26 + i)
  {
    assert i / 8 == 0 || i / 8 == 1 || i / 8 == 2 || i / 8 == 3;
    assert i % 4 == 0 || i % 4 == 1 || i % 4 == 2 || i % 4 == 3;
    assert i % 8 == i % 4 || i % 8 == i % 4 + 4;
  }

  lemma OtherLetter(i: int)
    requires 0 <= i < 12
    ensures |Others| == 12 && Others[i] as int == Letter(52 + i)
  {
    assert i / 4 == 0 || i / 4 == 1 || i / 4 == 2;
    assert i % 4 == 0 || i % 4 == 1 || i % 4 == 2 || i % 4 == 3;
  }

  lemma LetterIsAlphabet(i: int)
    requires 0 <= i < 64
    ensures |Alphabet| == 64 && Letter(i) == Alphabet[i] as int
  {
    hide Letter;
    UpperLetter(if i < 26 then i else 0);
    LowerLetter(if 26 <= i < 52 then i - 26 else 0);
    OtherLetter(if 52 <= i then i - 52 else 0);
  }

  ghost predicate InAlphabet(c: Byte) { exists i :: 0 <= i < |Alphabet| && Alphabet[i] as int == c }

  // A character reads as its position in the alphabet, padding as zero, anything else is an error.
  lemma IndexIsPosition(c: Byte)
    ensures 0 <= Index(c) < 64 || Index(c) == -1
    ensures Index(c) >= 0 <==> InAlphabet(c) || c == Pad
    ensures InAlphabet(c) ==> Alphabet[Index(c)] as int == c
    ensures c == Pad ==> !InAlphabet(c) && Index(c) == 0
  {
    hide Letter, Index;
    forall i | 0 <= i < |Alphabet|
      ensures Alphabet[i] as int == Letter(i) && Letter(i) != Pad && Index(Letter(i)) == i
    {
      LetterIsAlphabet(i);
      LetterIndex(i);
    }
    PadIndex();
    IndexLetter(c);
    if Index(c) >= 0 && c != Pad {
      LetterIsAlphabet(Index(c));
    }
  }

  lemma IndexLetter(c: Byte)
    ensures -1 <= Index(c) < 64
    ensures Index(c) >= 0 && c != Pad ==> Letter(Index(c)) == c
  {}

  lemma LetterIndex(i: int)
    requires 0 <= i < 64
    ensures Index(Letter(i)) == i && Letter(i) != Pad && Letter(i) != Cr && Letter(i) != Lf
  {}

  // encode3; the operands of each bitor have no bits in common
  function Encode3(x: Byte, y: Byte, z: Byte): seq<Byte> {
    [Letter(x / 4), Letter(x % 4 * 16 + y / 16), Letter(y % 16 * 4 + z / 64), Letter(z % 64)]
  }

  // decode4 on the indices
  function Decode4(a: int, b: int, c: int, d: int): seq<Byte>
    requires 0 <= a < 64 && 0 <= b < 64 && 0 <= c < 64 && 0 <= d < 64
  {
    [a * 4 + b / 16, b % 16 * 16 + c / 4, c % 4 * 64 + d]
  }

  // One group: missing bytes count as zero and are replaced by padding
  function Group(s: seq<Byte>): seq<Byte>
    requires 1 <= |s|
  {
    var y := if |s| > 1 then s[1] else 0;
    var z := if |s| > 2 then s[2] else 0;
    var e := Encode3(s[0], y, z);
    if |s| == 1 then e[..2] + [Pad, Pad] else if |s| == 2 then e[..3] + [Pad] else e
  }

  function Encode(s: seq<Byte>): seq<Byte>
    decreases |s|
  {
    if s == [] then [] else Group(s) + (if |s| > 3 then Encode(s[3..]) else [])
  }

  datatype Result = Decoded(bytes: seq<Byte>) | Malformed

  function CharAt(s: seq<Byte>, i: nat): Byte { if i < |s| then s[i] else Pad }

  function Padding(s: seq<Byte>): nat {
    (if CharAt(s, 1) == Pad then 1 else 0) + (if CharAt(s, 2) == Pad then 1 else 0)
    + (if CharAt(s, 3) == Pad then 1 else 0)
  }

  // Four characters, the missing ones read as padding; as many bytes are dropped as there is padding
  function Ungroup(s: seq<Byte>): Result
    requires s != []
  {
    var a, b, c, d := Index(s[0]), Index(CharAt(s, 1)), Index(CharAt(s, 2)), Index(CharAt(s, 3));
    if a < 0 || b < 0 || c < 0 || d < 0 then Malformed else Decoded(Decode4(a, b, c, d)[..3 - Padding(s)])
  }

  function Decode(s: seq<Byte>): Result
    decreases |s|
  {
    if s == [] then Decoded([])
    else
      var first := Ungroup(s);
      if first.Malformed? || |s| <= 4 then first
      else
        var rest := Decode(s[4..]);
        if rest.Malformed? then Malformed else Decoded(first.bytes + rest.bytes)
  }

  // ----- decoding undoes encoding

  lemma Decode4Encode3(x: Byte, y: Byte, z: Byte)
    ensures Decode4(x / 4, x % 4 * 16 + y / 16, y % 16 * 4 + z / 64, z % 64) == [x, y, z]
  {}

  lemma UngroupGroup(s: seq<Byte>, tail: seq<Byte>)
    requires s != [] && (|s| < 3 ==> tail == [])
    ensures Ungroup(Group(s) + tail) == Decoded(if |s| < 3 then s else s[..3]) && |Group(s)| == 4
  {
    hide Letter, Index;
    var x: Byte := s[0];
    var y: Byte := if |s| > 1 then s[1] else 0;
    var z: Byte := if |s| > 2 then s[2] else 0;
    LetterIndex(x / 4);
    LetterIndex(x % 4 * 16 + y / 16);
    LetterIndex(y % 16 * 4 + z / 64);
    LetterIndex(z % 64);
    PadIndex();
    Decode4Encode3(x, y, z);
    var g := Group(s) + tail;
    assert g[0] == Letter(x / 4) && g[1] == Letter(x % 4 * 16 + y / 16);
  }

  lemma PadIndex()
    ensures Index(Pad) == 0
  {}

  lemma {:induction false} RoundTrip(s: seq<Byte>)
    ensures Decode(Encode(s)) == Decoded(s)
    decreases |s|
  {
    if s != [] {
      var tail := if |s| > 3 then Encode(s[3..]) else [];
      UngroupGroup(s, tail);
      if |s| > 3 {
        RoundTrip(s[3..]);
        EncodeLength(s[3..]);
        assert (Group(s) + tail)[4..] == tail;
        assert s == s[..3] + s[3..];
      }
    }
  }

  // ----- what the digits mean

  // A number written in digits of a base, the most significant first
  ghost function Number(base: nat, digits: seq<int>): int {
    if digits == [] then 0 else Number(base, digits[..|digits| - 1]) * base + digits[|digits| - 1]
  }

  ghost function Indices(s: seq<Byte>): seq<int> { seq(|s|, i requires 0 <= i < |s| => Index(s[i])) }

  // The missing bytes of a last group count as zero.
  ghost function Filled(s: seq<Byte>): seq<int>
    requires 1 <= |s| <= 3
  {
    s + seq(3 - |s|, _ => 0)
  }

  lemma FourDigits(base: nat, a: int, b: int, c: int, d: int)
    ensures Number(base, [a, b, c, d]) == ((a * base + b) * base + c) * base + d
    ensures Number(base, [a, b, c]) == (a * base + b) * base + c
  {
    assert [a, b, c, d][..3] == [a, b, c] && [a, b, c][..2] == [a, b] && [a, b][..1] == [a] && [a][..0] == [];
    assert Number(base, [a]) == Number(base, []) * base + a == a;
    assert Number(base, [a, b]) == Number(base, [a]) * base + b;
    assert Number(base, [a, b, c]) == (a * base + b) * base + c;
  }

  // The four digits of a group, padding counting as zero, write the number its three bytes write.
  lemma GroupNumber(s: seq<Byte>)
    requires 1 <= |s| <= 3
    ensures |Group(s)| == 4 && Number(64, Indices(Group(s))) == Number(256, Filled(s))
    ensures forall i :: 0 <= i < 4 ==> (Group(s)[i] == Pad <==> i > |s|)
  {
    hide Letter, Index, Number;
    var x: Byte := s[0];
    var y: Byte := if |s| > 1 then s[1] else 0;
    var z: Byte := if |s| > 2 then s[2] else 0;
    LetterIndex(x / 4);
    LetterIndex(x % 4 * 16 + y / 16);
    LetterIndex(y % 16 * 4 + z / 64);
    LetterIndex(z % 64);
    PadIndex();
    var g := Group(s);
    assert Filled(s) == [x, y, z];
    assert Indices(g) == [x / 4, x % 4 * 16 + y / 16, y % 16 * 4 + z / 64, z % 64];
    FourDigits(64, x / 4, x % 4 * 16 + y / 16, y % 16 * 4 + z / 64, z % 64);
    FourDigits(256, x, y, z, 0);
  }

  // The encoding is made of the groups of three bytes and the rest, in order.
  lemma {:induction false} EncodeGroups(s: seq<Byte>, k: nat)
    requires 3 * k < |s|
    ensures var end := if 3 * k + 3 < |s| then 3 * k + 3 else |s|;
            |Encode(s)| >= 4 * k + 4 && Encode(s)[4 * k..4 * k + 4] == Group(s[3 * k..end])
    decreases k
  {
    hide Group, Encode;
    var end := if 3 * k + 3 < |s| then 3 * k + 3 else |s|;
    GroupLength(s);
    EncodeFirst(s);
    if k == 0 {
      GroupFirst(s);
      assert s[0..end] == if |s| > 3 then s[..3] else s;
      assert Encode(s)[0..4] == Group(s);
    } else {
      EncodeGroups(s[3..], k - 1);
      Later(Group(s), Encode(s[3..]), 4 * k);
      SliceOfRest(s, 3 * k, end);
    }
  }

  lemma EncodeFirst(s: seq<Byte>)
    requires s != []
    ensures Group(s) <= Encode(s) && (|s| > 3 ==> Encode(s) == Group(s) + Encode(s[3..]))
  {
    hide Group;
  }

  lemma SliceOfRest(s: seq<Byte>, from: nat, to: nat)
    requires 3 <= from <= to <= |s|
    ensures s[3..][from - 3..to - 3] == s[from..to]
  {}

  lemma Later(first: seq<Byte>, rest: seq<Byte>, at: nat)
    requires |first| == 4 && 4 <= at <= |rest|
    ensures (first + rest)[at..at + 4] == rest[at - 4..at]
  {}

  lemma GroupFirst(s: seq<Byte>)
    requires s != []
    ensures Group(s) == Group(if |s| > 3 then s[..3] else s)
  {}

  // A group of four that reads well writes, without its last bytes for padding, the number its digits write.
  lemma UngroupNumber(s: seq<Byte>)
    requires |s| == 4 && (forall c :: c in s ==> Index(c) >= 0)
    ensures Ungroup(s).Decoded? && |Ungroup(s).bytes| == 3 - Padding(s)
    ensures exists bytes: seq<Byte> ::
      |bytes| == 3 && Ungroup(s).bytes <= bytes && Number(256, bytes) == Number(64, Indices(s))
  {
    hide Index, Number;
    forall c ensures -1 <= Index(c) < 64 {
      IndexLetter(c);
    }
    assert s[0] in s && s[1] in s && s[2] in s && s[3] in s;
    var a, b, c, d := Index(s[0]), Index(s[1]), Index(s[2]), Index(s[3]);
    var bytes := Decode4(a, b, c, d);
    assert Indices(s) == [a, b, c, d];
    FourDigits(64, a, b, c, d);
    FourDigits(256, bytes[0], bytes[1], bytes[2], 0);
    assert bytes == [bytes[0], bytes[1], bytes[2]];
  }

  // Decoding fails exactly if some character is neither in the alphabet nor padding.
  lemma {:induction false} MalformedExactly(s: seq<Byte>)
    ensures Decode(s).Malformed? <==> exists c :: c in s && !InAlphabet(c) && c != Pad
    decreases |s|
  {
    hide Index, InAlphabet;
    forall c ensures Index(c) < 0 <==> !InAlphabet(c) && c != Pad {
      IndexIsPosition(c);
    }
    if s != [] {
      UngroupFails(s);
      if |s| > 4 {
        MalformedExactly(s[4..]);
        assert forall c :: c in s <==> c in s[..4] || c in s[4..];
      } else {
        assert s[..|s|] == s;
      }
    }
  }

  lemma UngroupFails(s: seq<Byte>)
    requires s != []
    ensures Ungroup(s).Malformed? <==> exists c :: c in (if |s| > 4 then s[..4] else s) && Index(c) < 0
  {
    hide Index;
    PadIndex();
    var t := if |s| > 4 then s[..4] else s;
    forall i | 0 <= i < |t| ensures t[i] in t {
    }
  }

  lemma {:induction false} StripMembers(s: seq<Byte>)
    ensures forall c :: c in Strip(s) <==> c in s && c != Cr && c != Lf
    decreases |s|
  {
    if s != [] {
      StripMembers(s[1..]);
      assert s == [s[0]] + s[1..];
    }
  }

  lemma {:induction false} EncodeLength(s: seq<Byte>)
    ensures |Encode(s)| == 4 * ((|s| + 2) / 3)
    decreases |s|
  {
    hide Group;
    if s != [] {
      GroupLength(s);
      if |s| > 3 {
        EncodeLength(s[3..]);
      }
    }
  }

  // ----- lines

  // A line break after every 76 characters
  function Wrap(s: seq<Byte>): seq<Byte>
    decreases |s|
  {
    if |s| < LineLength then s else s[..LineLength] + [Cr, Lf] + Wrap(s[LineLength..])
  }

  // The same, character by character, from a column on
  function WrapFrom(column: nat, s: seq<Byte>): seq<Byte>
    requires column < LineLength
    decreases |s|
  {
    if s == [] then []
    else if column + 1 == LineLength then [s[0], Cr, Lf] + WrapFrom(0, s[1..])
    else [s[0]] + WrapFrom(column + 1, s[1..])
  }

  // Columns wrap around.
  lemma NextColumn(column: nat, n: nat)
    requires column < LineLength && n > 0
    ensures (column + n) % LineLength == ((if column + 1 == LineLength then 0 else column + 1) + (n - 1)) % LineLength
  {
    if column + 1 == LineLength {
      var q, r := (n - 1) / LineLength, (n - 1) % LineLength;
      QuotientIs(column + n, LineLength, q + 1, r);
    }
  }

  lemma {:induction false} WrapAppend(column: nat, a: seq<Byte>, b: seq<Byte>)
    requires column < LineLength
    ensures WrapFrom(column, a + b) == WrapFrom(column, a) + WrapFrom((column + |a|) % LineLength, b)
    decreases |a|
  {
    if a == [] {
      assert a + b == b;
    } else {
      assert (a + b)[1..] == a[1..] + b;
      WrapAppend(if column + 1 == LineLength then 0 else column + 1, a[1..], b);
      NextColumn(column, |a|);
    }
  }

  lemma {:induction false} WrapFromLine(column: nat, s: seq<Byte>)
    requires column < LineLength
    ensures var room := LineLength - column;
            WrapFrom(column, s) == if |s| < room then s else s[..room] + [Cr, Lf] + WrapFrom(0, s[room..])
    decreases |s|
  {
    if s != [] && column + 1 < LineLength {
      WrapFromLine(column + 1, s[1..]);
      var room := LineLength - column;
      assert s == [s[0]] + s[1..];
      if |s| >= room {
        assert s[..room] == [s[0]] + s[1..][..room - 1];
        assert s[1..][room - 1..] == s[room..];
      }
    }
  }

  lemma {:induction false} WrapFromIsWrap(s: seq<Byte>)
    ensures WrapFrom(0, s) == Wrap(s)
    decreases |s|
  {
    WrapFromLine(0, s);
    if |s| >= LineLength {
      WrapFromIsWrap(s[LineLength..]);
    }
  }

  // Reading ignores line breaks.
  function Strip(s: seq<Byte>): seq<Byte> {
    if s == [] then [] else if s[0] == Cr || s[0] == Lf then Strip(s[1..]) else [s[0]] + Strip(s[1..])
  }

  ghost predicate OneLine(s: seq<Byte>) { forall c :: c in s ==> c != Cr && c != Lf }

  lemma {:induction false} StripWrap(column: nat, s: seq<Byte>)
    requires column < LineLength && OneLine(s)
    ensures Strip(WrapFrom(column, s)) == s
    decreases |s|
  {
    hide Strip;
    if s == [] {
      StripNone();
    } else {
      assert s[0] in s && forall c :: c in s[1..] ==> c in s;
      var next := if column + 1 == LineLength then 0 else column + 1;
      StripWrap(next, s[1..]);
      var rest := WrapFrom(next, s[1..]);
      StripBreak(rest);
      StripCons(s[0], if column + 1 == LineLength then [Cr, Lf] + rest else rest);
      assert [s[0], Cr, Lf] + rest == [s[0]] + ([Cr, Lf] + rest);
    }
  }

  lemma StripNone()
    ensures Strip([]) == []
  {}

  lemma StripBreak(s: seq<Byte>)
    ensures Strip([Cr, Lf] + s) == Strip(s)
  {
    assert ([Cr, Lf] + s)[1..] == [Lf] + s && ([Lf] + s)[1..] == s;
  }

  lemma StripCons(c: Byte, s: seq<Byte>)
    requires c != Cr && c != Lf
    ensures Strip([c] + s) == [c] + Strip(s)
  {
    assert ([c] + s)[1..] == s;
  }

  lemma {:induction false} StripOneLine(s: seq<Byte>)
    requires OneLine(s)
    ensures Strip(s) == s
    decreases |s|
  {
    if s != [] {
      assert s[0] in s && forall c :: c in s[1..] ==> c in s;
      StripOneLine(s[1..]);
    }
  }

  lemma {:induction false} EncodeOneLine(s: seq<Byte>)
    ensures OneLine(Encode(s))
    decreases |s|
  {
    if s != [] {
      GroupOneLine(s);
      if |s| > 3 {
        EncodeOneLine(s[3..]);
      }
    }
  }

  lemma GroupOneLine(s: seq<Byte>)
    requires s != []
    ensures OneLine(Group(s))
  {}

  // ----- the streams

  // (stream-write-lines): a group of four at a column
  method WriteLines(column: nat, data: seq<Byte>) returns (written: seq<Byte>, next: nat)
    requires |data| == 4 && column < LineLength && column % 4 == 0
    ensures written == WrapFrom(column, data) && next == (column + 4) % LineLength
  {
    if column > 71 {
      written, next := [], column;
      var i := 0;
      while i < 4
        invariant 0 <= i <= 4 && next == (column + i) % LineLength && written == WrapFrom(column, data[..i])
      {
        assert data[..i + 1] == data[..i] + [data[i]];
        WrapAppend(column, data[..i], [data[i]]);
        written := written + [data[i]];
        next := next + 1;
        if next == 76 {
          next := 0;
          written := written + [Cr, Lf];
        }
        i := i + 1;
      }
      assert data[..4] == data;
    } else {
      written, next := data, column + 4;
      WrapFromLine(column, data);
    }
  }

  // encode-base64 and encode-base64-lines
  method EncodeStream(input: seq<Byte>, lines: bool) returns (output: seq<Byte>)
    ensures output == if lines then Wrap(Encode(input)) else Encode(input)
  {
    hide Group, Encode, WrapFrom, Wrap;
    var position, column := 0, 0;
    output := [];
    ghost var done: seq<Byte> := [];
    assert input[0..] == input && [] + Encode(input) == Encode(input);
    NothingYet();
    while position < |input|
      invariant 0 <= position <= |input| && column < LineLength && column % 4 == 0
      invariant done + Encode(input[position..]) == Encode(input)
      invariant column == |done| % LineLength && output == if lines then WrapFrom(0, done) else done
    {
      var group := Group(input[position..]);
      GroupLength(input[position..]);
      var next := if position + 3 < |input| then position + 3 else |input|;
      EncodeStep(input, position, next);
      WrapAppend(0, done, group);
      var written, after := WriteLines(column, group);
      output := output + (if lines then written else group);
      column := after;
      assert done + group + Encode(input[next..]) == done + (group + Encode(input[next..]));
      ColumnStep(|done|);
      done := done + group;
      position := next;
    }
    assert input[position..] == [];
    WrapFromIsWrap(done);
    assert done + [] == done;
  }

  lemma NothingYet()
    ensures WrapFrom(0, []) == [] && Encode([]) == []
  {}

  lemma ColumnStep(n: nat)
    ensures (n + 4) % LineLength == (n % LineLength + 4) % LineLength
    ensures n % LineLength % 4 == 0 ==> (n + 4) % LineLength % 4 == 0
  {
    var q, r := n / LineLength, n % LineLength;
    if r + 4 < LineLength {
      QuotientIs(n + 4, LineLength, q, r + 4);
    } else {
      QuotientIs(n + 4, LineLength, q + 1, r + 4 - LineLength);
    }
  }

  lemma GroupLength(s: seq<Byte>)
    requires s != []
    ensures |Group(s)| == 4
  {}

  lemma EncodeStep(input: seq<Byte>, position: nat, next: nat)
    requires position < |input| && next == if position + 3 < |input| then position + 3 else |input|
    ensures Encode(input[position..]) == Group(input[position..]) + Encode(input[next..])
  {
    if position + 3 < |input| {
      assert input[position..][3..] == input[next..];
    }
  }

  // read1-ignoring for line breaks; at the end of the input it reads padding
  method ReadChar(input: seq<Byte>, position: nat) returns (found: bool, c: Byte, next: nat)
    requires position <= |input|
    ensures position <= next <= |input| && (found ==> position < next)
    ensures Strip(input[position..]) == (if found then [c] else []) + Strip(input[next..])
    ensures !found ==> c == Pad && next == |input|
  {
    next := position;
    while next < |input| && (input[next] == Cr || input[next] == Lf)
      invariant position <= next <= |input| && Strip(input[position..]) == Strip(input[next..])
    {
      assert input[next..][1..] == input[next + 1..];
      next := next + 1;
    }
    if next == |input| {
      return false, Pad, next;
    }
    assert input[next..][1..] == input[next + 1..];
    return true, input[next], next + 1;
  }

  function Join(bytes: seq<Byte>, r: Result): Result {
    if r.Malformed? then Malformed else Decoded(bytes + r.bytes)
  }

  // decode-base64
  method DecodeStream(input: seq<Byte>) returns (r: Result)
    ensures r == Decode(Strip(input))
    ensures r.Malformed? <==> exists c :: c in input && c != Cr && c != Lf && c != Pad && !InAlphabet(c)
  {
    hide Strip, Ungroup, Decode, InAlphabet;
    MalformedExactly(Strip(input));
    StripMembers(input);
    var position: nat := 0;
    var output: seq<Byte> := [];
    assert input[0..] == input;
    JoinNothing(Decode(Strip(input)));
    while true
      invariant position <= |input| && Decode(Strip(input)) == Join(output, Decode(Strip(input[position..])))
      decreases |input| - position
    {
      var group, next := ReadGroup(input, position);
      DecodeStep(Strip(input[position..]), group);
      if group == [] {
        return Decoded(output);
      }
      var bytes := Ungroup(group);
      if bytes.Malformed? {
        return Malformed;
      }
      ghost var rest := Decode(Strip(input[next..]));
      assert output + bytes.bytes + (if rest.Decoded? then rest.bytes else []) ==
             output + (bytes.bytes + if rest.Decoded? then rest.bytes else []);
      output := output + bytes.bytes;
      position := next;
    }
  }

  // The next four characters, padded, or none at the end of the input
  method ReadGroup(input: seq<Byte>, position: nat) returns (group: seq<Byte>, next: nat)
    requires position <= |input|
    ensures position <= next <= |input| && (group != [] ==> position < next)
    ensures GroupOf(Strip(input[position..]), group, Strip(input[next..]))
  {
    hide Strip;
    var found, a;
    found, a, next := ReadChar(input, position);
    if !found {
      EndOfInput(input, next);
      return [], next;
    }
    var found', b, c, d;
    found', b, next := ReadChar(input, next);
    found', c, next := ReadChar(input, next);
    found', d, next := ReadChar(input, next);
    EndOfInput(input, |input|);
    return [a, b, c, d], next;
  }

  // What is read from s in one turn
  ghost predicate GroupOf(s: seq<Byte>, group: seq<Byte>, rest: seq<Byte>) {
    if s == [] then group == [] && rest == []
    else group == [CharAt(s, 0), CharAt(s, 1), CharAt(s, 2), CharAt(s, 3)] && rest == if |s| > 4 then s[4..] else []
  }

  lemma DecodeStep(s: seq<Byte>, group: seq<Byte>)
    requires GroupOf(s, group, if |s| > 4 then s[4..] else [])
    ensures s == [] ==> Decode(s) == Decoded([])
    ensures s != [] ==> group != []
    ensures s != [] && Ungroup(group).Malformed? ==> Decode(s) == Malformed
    ensures s != [] && Ungroup(group).Decoded? ==>
      Decode(s) == Join(Ungroup(group).bytes, Decode(if |s| > 4 then s[4..] else []))
  {
    if s != [] {
      assert Padding(s) == Padding(group);
      assert Ungroup(s) == Ungroup(group);
      if |s| <= 4 && Ungroup(s).Decoded? {
        assert Ungroup(s).bytes + [] == Ungroup(s).bytes;
      }
    }
  }

  lemma JoinNothing(r: Result)
    ensures Join([], r) == r
  {}

  lemma EndOfInput(input: seq<Byte>, next: nat)
    requires next == |input|
    ensures Strip(input[next..]) == []
  {}

  // Decoding undoes encoding, with or without line breaks.
  lemma StreamRoundTrip(s: seq<Byte>)
    ensures Decode(Strip(Encode(s))) == Decoded(s) && Decode(Strip(Wrap(Encode(s)))) == Decoded(s)
  {
    RoundTrip(s);
    EncodeOneLine(s);
    StripOneLine(Encode(s));
    StripWrap(0, Encode(s));
    WrapFromIsWrap(Encode(s));
  }
}
