/**
 * CFF INDEX data (section 5 "INDEX Data" of Adobe Technical Note #5176):
 * a 16-bit count, an offSize byte (1 to 4), count + 1 offsets of offSize
 * bytes each, and the object data; offsets count from the byte before the
 * data, so the first one is 1.  ReadIndexCFF reads the header and the
 * offsets and turns each item into a name, a DICT, bytes or a range;
 * WriteIndexCFF writes the items into a separate stream, chooses the
 * smallest offSize for the last offset and writes the header, the offsets
 * (WriteOffsetCff) and then the data.
 */
module CffIndex {
  import opened BigEndian
  import opened Outcome
  import opened CMapDecode
  import opened CffToken
  import opened CffDict
  import Checksum
  import Writer

  const OFFSIZE_ERROR: string := "invalid CFF index offSize"
  /** What a read of a negative number of bytes throws (Stream.Read or the array allocation). */
  const NEGATIVE_LENGTH: string := "Non-negative number required."
  /** What allocating a byte array of negative length throws. */
  const ARRAY_OVERFLOW: string := "Arithmetic operation resulted in an overflow."
  /** What WriteIndexCFF throws for an item of no known type (a null element). */
  const UNKNOWN_INDEX_TYPE: string := "unknown index type"

  // ---------------------------------------------------------------- offsets

  /** WriteIndexCFF's offSize for the last offset: the fewest bytes that hold it. */
  function OffSizeFor(offset: int): (r: int)
    ensures 1 <= r <= 4
  {
    if offset <= 0xFF then 1
    else if offset <= 0xFFFF then 2
    else if offset <= 0xFF_FFFF then 3
    else 4
  }

  /** The chosen offSize holds the offset, and no smaller one would. */
  lemma OffSizeFits(offset: int)
    requires 0 <= offset < 0x8000_0000
    ensures offset < Pow256(OffSizeFor(offset))
    ensures OffSizeFor(offset) == 1 || Pow256(OffSizeFor(offset) - 1) <= offset
  {
    Pow256Values();
  }

  /** WriteOffsetCff: the offSize bytes of an offset, most significant first; nothing for an offSize outside 1..4. */
  function OffsetBytes(offSize: int, offset: int): (r: seq<byte>)
    ensures 1 <= offSize <= 4 ==> |r| == offSize
    ensures !(1 <= offSize <= 4) ==> r == []
  {
    if offSize == 1 then [offset % 256]
    else if offSize == 2 then ShortBytes(offset)
    else if offSize == 3 then [ByteAt(offset, 2)] + ShortBytes(offset)
    else if offSize == 4 then IntBytes(offset)
    else []
  }

  /** WriteOffsetCff. */
  method WriteOffsetCff(out: ByteStream, offSize: int, offset: int)
    modifies out
    ensures out.bytes == old(out.bytes) + OffsetBytes(offSize, offset)
  {
    if offSize == 1 {
      out.WriteByte(offset);
    } else if offSize == 2 {
      out.WriteShort(offset);
    } else if offSize == 3 {
      Pow256Values();
      out.WriteByte(offset / 0x1_0000);
      out.WriteShort(offset);
    } else if offSize == 4 {
      out.WriteInt(offset);
    }
  }

  /**
   * The offset ReadIndexCFF reads at q: one byte; GetShort masked to 16
   * bits; for three bytes GetInt shifted right by 8 and masked to 24 bits,
   * which keeps exactly the three bytes read; GetInt otherwise.
   */
  function ReadOffset(data: seq<byte>, q: int, offSize: int): int
  {
    if offSize == 1 then ByteOr0(data, q) as int
    else if offSize == 2 then U16(ShortAt(data, q))
    else if offSize == 3 then ByteOr0(data, q) as int * 0x1_0000 + ByteOr0(data, q + 1) as int * 0x100 + ByteOr0(data, q + 2)
    else ToInt32(ByteOr0(data, q) as int * 0x100_0000 + ByteOr0(data, q + 1) as int * 0x1_0000
                 + ByteOr0(data, q + 2) as int * 0x100 + ByteOr0(data, q + 3))
  }

  /** The bytes w sit at position q of data, so ByteOr0 reads them. */
  lemma ByteOr0At(data: seq<byte>, q: nat, w: seq<byte>, i: nat)
    requires At(data, q, w) && i < |w|
    ensures ByteOr0(data, q + i) == w[i]
  {
    assert data[q..q + |w|][i] == w[i];
  }

  /** The three low bytes of an offset below 2^24 make it up again. */
  lemma ThreeBytes(off: int)
    requires 0 <= off < 0x100_0000
    ensures ByteAt(off, 2) as int * 0x1_0000 + ByteAt(off, 1) as int * 0x100 + ByteAt(off, 0) == off
  {
    Pow256Values();
    var x := off / 256;
    assert off == x * 256 + off % 256;
    assert x == (x / 256) * 256 + x % 256;
    assert off / 0x1_0000 == x / 256;
    assert ByteAt(off, 2) == x / 256;
    assert ByteAt(off, 1) == x % 256;
  }

  /** The two low bytes of an offset below 2^16 make it up again. */
  lemma TwoBytes(off: int)
    requires 0 <= off < 0x1_0000
    ensures ByteAt(off, 1) as int * 0x100 + ByteAt(off, 0) == off
  {
    Pow256Values();
    assert ByteAt(off, 1) == off / 256;
  }

  /** A two-byte offset reads back. */
  lemma ShortOffset(data: seq<byte>, q: nat, off: int)
    requires 0 <= off < 0x1_0000 && At(data, q, ShortBytes(off))
    ensures U16(ShortAt(data, q)) == off
  {
    ByteOr0At(data, q, ShortBytes(off), 0);
    ByteOr0At(data, q, ShortBytes(off), 1);
    TwoBytes(off);
    ToInt16Congruent(off);
  }

  /** A three-byte offset reads back. */
  lemma TriOffset(data: seq<byte>, q: nat, off: int)
    requires 0 <= off < 0x100_0000 && At(data, q, [ByteAt(off, 2)] + ShortBytes(off))
    ensures ByteOr0(data, q) as int * 0x1_0000 + ByteOr0(data, q + 1) as int * 0x100 + ByteOr0(data, q + 2) == off
  {
    var w := [ByteAt(off, 2)] + ShortBytes(off);
    ByteOr0At(data, q, w, 0);
    ByteOr0At(data, q, w, 1);
    ByteOr0At(data, q, w, 2);
    ThreeBytes(off);
  }

  /** A four-byte offset reads back. */
  lemma IntOffset(data: seq<byte>, q: nat, off: int)
    requires 0 <= off < 0x8000_0000 && At(data, q, IntBytes(off))
    ensures ReadOffset(data, q, 4) == off
  {
    var w := IntBytes(off);
    ByteOr0At(data, q, w, 0);
    ByteOr0At(data, q, w, 1);
    ByteOr0At(data, q, w, 2);
    ByteOr0At(data, q, w, 3);
    FiveByteValue(off);
  }

  /** WriteOffsetCff then the offset read of ReadIndexCFF: every offset that fits in offSize bytes comes back. */
  lemma OffsetRoundTrip(data: seq<byte>, q: nat, offSize: int, off: int)
    requires 1 <= offSize <= 4 && 0 <= off < Pow256(offSize) && off < 0x8000_0000
    requires At(data, q, OffsetBytes(offSize, off))
    ensures ReadOffset(data, q, offSize) == off
  {
    Pow256Values();
    if offSize == 1 {
      ByteOr0At(data, q, OffsetBytes(offSize, off), 0);
    } else if offSize == 2 {
      ShortOffset(data, q, off);
    } else if offSize == 3 {
      TriOffset(data, q, off);
    } else {
      IntOffset(data, q, off);
    }
  }

  // ---------------------------------------------------------------- reading

  /** The four kinds of INDEX ReadIndexCFF reads: CFF_INDEX_NAMES, _DICTS, _BINARY and _BINARY_RANGE. */
  datatype IndexKind = Names | Dicts | Binary | BinaryRange

  /** An item as ReadIndexCFF returns it: a string, a dictionary, a byte array or a Range. */
  datatype IndexItem = Name(text: string) | DictItem(dict: seq<(int, Operand)>) | Blob(bytes: seq<byte>) | Span(offset: int, length: int)

  /** The items of an INDEX and the position ReadIndexCFF leaves the stream at. */
  datatype IndexRead = IndexRead(items: seq<IndexItem>, next: int)

  /**
   * The offsets of an INDEX whose header is at p, made absolute: each as
   * read, plus the position of the byte before the data (the stream
   * position after the offsets, less one), added as C# ints.
   */
  function Offsets(data: seq<byte>, p: nat, count: nat, offSize: int): (r: seq<int>)
    ensures |r| == count + 1
  {
    var base := p + 3 + (count + 1) * offSize - 1;
    seq(count + 1, i => ToInt32(ReadOffset(data, p + 3 + i * offSize, offSize) + base))
  }

  /** The length of the string in the len bytes at pos: up to the first zero byte, the while loop over strlen. */
  function NameLength(data: seq<byte>, pos: int, len: nat, k: nat): (r: nat)
    requires k <= len
    ensures k <= r <= len
    ensures forall q | pos + k <= q < pos + r :: ByteOr0(data, q) != 0
    ensures r < len ==> ByteOr0(data, pos + r) == 0
    decreases len - k
  {
    if k < len && ByteOr0(data, pos + k) != 0 then NameLength(data, pos, len, k + 1) else k
  }

  /** ISO-8859-1 decoding: each byte is the character with that code. */
  function Latin1Text(bytes: seq<byte>): (r: string)
    ensures |r| == |bytes| && forall i | 0 <= i < |bytes| :: r[i] as int == bytes[i]
  {
    seq(|bytes|, i requires 0 <= i < |bytes| => bytes[i] as char)
  }

  /** The len bytes at pos, as Stream.Read puts them in the buffer. */
  function BytesAt(data: seq<byte>, pos: int, len: nat): (r: seq<byte>)
    ensures |r| == len && forall k | 0 <= k < len :: r[k] == ByteOr0(data, pos + k)
  {
    seq(len, k requires 0 <= k < len => if 0 <= pos + k < |data| then data[pos + k] else 0)
  }

  /** The string an item of a names INDEX holds: its bytes up to the first zero, as ISO-8859-1. */
  function NameAt(data: seq<byte>, pos: int, len: nat): string
  {
    Latin1Text(BytesAt(data, pos, NameLength(data, pos, len, 0)))
  }

  /**
   * One pass of ReadIndexCFF's item loop for the item between offsets
   * start and end, with the stream at pos: the item and the new position,
   * or what the stream or the allocation throws.  A DICT is read from pos
   * up to end and the stream is then moved to end; the other kinds read
   * from pos on (a range reads nothing).
   */
  function ItemStep(data: seq<byte>, kind: IndexKind, start: int, end: int, pos: nat): (r: Result<(IndexItem, nat)>)
    ensures r.Success? && (kind == Names || kind == Binary) ==> r.value.1 == pos + end - start
    ensures r.Success? && kind == Dicts ==> r.value.1 == end
  {
    var len := end - start;
    match kind
    case Names =>
      if len < 0 then Failure(NEGATIVE_LENGTH) else Success((Name(NameAt(data, pos, len)), pos + len))
    case Dicts =>
      (match ReadDict(data, pos, end)
       case Failure(e) => Failure(e)
       case Success(d) => if end < 0 then Failure(SEEK_ERROR) else Success((DictItem(d), end)))
    case Binary =>
      if len < 0 then Failure(ARRAY_OVERFLOW) else Success((Blob(BytesAt(data, pos, len)), pos + len))
    case BinaryRange => Success((Span(start, len), pos))
  }

  /** ReadIndexCFF's item loop from item i on, with the stream at pos and `items` read so far. */
  function ItemsFrom(data: seq<byte>, offsets: seq<int>, kind: IndexKind, i: nat, pos: nat, items: seq<IndexItem>): (r: Result<seq<IndexItem>>)
    requires i < |offsets|
    ensures r.Success? ==> |r.value| == |items| + |offsets| - 1 - i && r.value[..|items|] == items
    decreases |offsets| - i
  {
    if i + 1 == |offsets| then Success(items)
    else
      match ItemStep(data, kind, offsets[i], offsets[i + 1], pos)
      case Failure(e) => Failure(e)
      case Success((item, next)) =>
        var r := ItemsFrom(data, offsets, kind, i + 1, next, items + [item]);
        assert r.Success? ==> r.value[..|items|] == (r.value[..|items| + 1])[..|items|];
        r
  }

  /**
   * ReadIndexCFF at p: an unsigned 16-bit count (no items and two bytes
   * read for 0); otherwise an offSize byte, which must lie in 1..4, the
   * count + 1 offsets, a seek to the first item, the items, and a seek to
   * the end of the data.
   */
  function ReadIndex(data: seq<byte>, p: nat, kind: IndexKind): Result<IndexRead>
  {
    var count := U16(ShortAt(data, p));
    if count == 0 then Success(IndexRead([], p + 2))
    else
      var offSize := ByteOr0(data, p + 2) as int;
      if offSize > 4 || offSize <= 0 then Failure(OFFSIZE_ERROR)
      else
        var offsets := Offsets(data, p, count, offSize);
        if offsets[0] < 0 then Failure(SEEK_ERROR)
        else
          match ItemsFrom(data, offsets, kind, 0, offsets[0], [])
          case Failure(e) => Failure(e)
          case Success(items) => if offsets[count] < 0 then Failure(SEEK_ERROR) else Success(IndexRead(items, offsets[count]))
  }

  /** The while loop over strlen in ReadIndexCFF's names branch. */
  method NameLengthCff(data: seq<byte>, pos: int, len: nat) returns (strlen: nat)
    ensures strlen == NameLength(data, pos, len, 0)
  {
    strlen := 0;
    while strlen < len && ByteOr0(data, pos + strlen) != 0
      invariant strlen <= len
      invariant NameLength(data, pos, len, strlen) == NameLength(data, pos, len, 0)
      decreases len - strlen
    {
      strlen := strlen + 1;
    }
  }

  /** One pass of ReadIndexCFF's item loop: the switch on the kind. */
  method ReadItemCff(data: seq<byte>, kind: IndexKind, start: int, end: int, pos: nat) returns (r: Result<(IndexItem, nat)>)
    ensures r == ItemStep(data, kind, start, end, pos)
  {
    var len := end - start;
    match kind
    case Names =>
      if len < 0 {
        return Failure(NEGATIVE_LENGTH);
      }
      var strlen := NameLengthCff(data, pos, len);
      r := Success((Name(Latin1Text(BytesAt(data, pos, strlen))), pos + len));
    case Dicts =>
      var d := ReadDictCff(data, pos, end);
      if d.Failure? {
        return Failure(d.error);
      }
      if end < 0 {
        return Failure(SEEK_ERROR);
      }
      r := Success((DictItem(d.value), end));
    case Binary =>
      if len < 0 {
        return Failure(ARRAY_OVERFLOW);
      }
      r := Success((Blob(BytesAt(data, pos, len)), pos + len));
    case BinaryRange =>
      r := Success((Span(start, len), pos));
  }

  /** ReadIndexCFF: the header, the offsets (ReadOffsetsCff), the items (ReadItemsCff) and the final seek. */
  method ReadIndexCff(data: seq<byte>, p: nat, kind: IndexKind) returns (r: Result<IndexRead>)
    ensures r == ReadIndex(data, p, kind)
  {
    var count := U16(ShortAt(data, p));
    if count == 0 {
      return Success(IndexRead([], p + 2));
    }
    var offSize := ByteOr0(data, p + 2) as int;
    if offSize > 4 || offSize <= 0 {
      return Failure(OFFSIZE_ERROR);
    }
    var offsets := ReadOffsetsCff(data, p, count, offSize);
    if offsets[0] < 0 {
      return Failure(SEEK_ERROR);
    }
    var items := ReadItemsCff(data, offsets, kind);
    if items.Failure? {
      return Failure(items.error);
    }
    if offsets[count] < 0 {
      return Failure(SEEK_ERROR);
    }
    r := Success(IndexRead(items.value, offsets[count]));
  }

  /** The two loops of ReadIndexCFF over the offsets: read each, then add the position before the data. */
  method ReadOffsetsCff(data: seq<byte>, p: nat, count: nat, offSize: int) returns (offsets: array<int>)
    ensures fresh(offsets) && offsets[..] == Offsets(data, p, count, offSize)
  {
    offsets := new int[count + 1];
    var i := 0;
    while i <= count
      invariant 0 <= i <= count + 1
      invariant forall j | 0 <= j < i :: offsets[j] == ReadOffset(data, p + 3 + j * offSize, offSize)
    {
      offsets[i] := ReadOffset(data, p + 3 + i * offSize, offSize);
      i := i + 1;
    }
    ghost var spec := Offsets(data, p, count, offSize);
    var offset := p + 3 + (count + 1) * offSize - 1;
    i := 0;
    while i <= count
      invariant 0 <= i <= count + 1
      invariant forall j | 0 <= j < i :: offsets[j] == spec[j]
      invariant forall j | i <= j <= count :: offsets[j] == ReadOffset(data, p + 3 + j * offSize, offSize)
    {
      offsets[i] := ToInt32(offsets[i] + offset);
      i := i + 1;
    }
  }

  /** ReadIndexCFF's item loop, from the first offset on. */
  method ReadItemsCff(data: seq<byte>, offsets: array<int>, kind: IndexKind) returns (r: Result<seq<IndexItem>>)
    requires offsets.Length >= 1 && offsets[0] >= 0
    ensures r == ItemsFrom(data, offsets[..], kind, 0, offsets[0], [])
  {
    ghost var spec := offsets[..];
    var pos: nat := offsets[0];
    var items: seq<IndexItem> := [];
    var i := 0;
    while i + 1 < offsets.Length
      invariant 0 <= i < offsets.Length
      invariant ItemsFrom(data, spec, kind, i, pos, items) == ItemsFrom(data, spec, kind, 0, spec[0], [])
    {
      var step := ReadItemCff(data, kind, offsets[i], offsets[i + 1], pos);
      if step.Failure? {
        return Failure(step.error);
      }
      items := items + [step.value.0];
      pos := step.value.1;
      i := i + 1;
    }
    r := Success(items);
  }

  // ---------------------------------------------------------------- where the items are

  /**
   * The item between offsets start and end of an INDEX: the string up to
   * its first zero byte, the DICT ending at end, the bytes, or the range
   * itself; the reading kinds need a start inside the stream and a length
   * that is not negative (a DICT: an end the stream can seek to).
   */
  ghost predicate ItemAt(data: seq<byte>, kind: IndexKind, start: int, end: int, item: IndexItem)
  {
    match kind
    case Names => 0 <= start <= end && item == Name(NameAt(data, start, end - start))
    case Dicts => 0 <= start && 0 <= end && item.DictItem? && ReadDict(data, start, end) == Success(item.dict)
    case Binary => 0 <= start <= end && item == Blob(BytesAt(data, start, end - start))
    case BinaryRange => item == Span(start, end - start)
  }

  /** Item i of an INDEX with absolute offsets `offsets`. */
  ghost predicate ItemIsAt(data: seq<byte>, kind: IndexKind, offsets: seq<int>, i: nat, item: IndexItem)
    requires i + 1 < |offsets|
  {
    ItemAt(data, kind, offsets[i], offsets[i + 1], item)
  }

  /** With the stream at the item's start, one pass of the loop reads exactly the item there and moves to its end. */
  lemma StepAt(data: seq<byte>, kind: IndexKind, start: int, end: int, pos: nat, item: IndexItem)
    requires kind != BinaryRange ==> pos == start
    ensures var r := ItemStep(data, kind, start, end, pos);
      r.Success? ==> ItemAt(data, kind, start, end, r.value.0) && r.value.1 == (if kind == BinaryRange then pos else end)
    ensures ItemAt(data, kind, start, end, item) ==> ItemStep(data, kind, start, end, pos) == Success((item, if kind == BinaryRange then pos else end))
  {
  }

  /** The item loop reads every item where the offsets put it. */
  lemma {:induction false} ItemsPlaced(data: seq<byte>, offsets: seq<int>, kind: IndexKind, i: nat, pos: nat, items: seq<IndexItem>, all: seq<IndexItem>)
    requires i < |offsets| && (kind != BinaryRange ==> pos == offsets[i])
    requires ItemsFrom(data, offsets, kind, i, pos, items) == Success(all)
    ensures forall j | |items| <= j < |all| :: j - |items| + i + 1 < |offsets| && ItemIsAt(data, kind, offsets, j - |items| + i, all[j])
    decreases |offsets| - i
  {
    if i + 1 < |offsets| {
      var step := ItemStep(data, kind, offsets[i], offsets[i + 1], pos);
      StepAt(data, kind, offsets[i], offsets[i + 1], pos, step.value.0);
      var item, next := step.value.0, step.value.1;
      ItemsPlaced(data, offsets, kind, i + 1, next, items + [item], all);
      assert all[|items|] == (items + [item])[|items|];
    }
  }

  /** Items each where the offsets put them are what the item loop reads. */
  lemma {:induction false} PlacedItems(data: seq<byte>, offsets: seq<int>, kind: IndexKind, i: nat, pos: nat, items: seq<IndexItem>, rest: seq<IndexItem>)
    requires i < |offsets| && |rest| == |offsets| - 1 - i
    requires kind != BinaryRange ==> pos == offsets[i]
    requires forall j | 0 <= j < |rest| :: ItemIsAt(data, kind, offsets, i + j, rest[j])
    ensures ItemsFrom(data, offsets, kind, i, pos, items) == Success(items + rest)
    decreases |offsets| - i
  {
    if i + 1 == |offsets| {
      assert items + rest == items;
    } else {
      assert ItemIsAt(data, kind, offsets, i + 0, rest[0]);
      var next := if kind == BinaryRange then pos else offsets[i + 1];
      StepAt(data, kind, offsets[i], offsets[i + 1], pos, rest[0]);
      TailPlaced(data, offsets, kind, i, rest);
      PlacedItems(data, offsets, kind, i + 1, next, items + [rest[0]], rest[1..]);
      assert (items + [rest[0]]) + rest[1..] == items + rest;
    }
  }

  /** The items after the first are each in place from offset i + 1 on. */
  lemma TailPlaced(data: seq<byte>, offsets: seq<int>, kind: IndexKind, i: nat, rest: seq<IndexItem>)
    requires rest != [] && i + |rest| < |offsets|
    requires forall j | 0 <= j < |rest| :: ItemIsAt(data, kind, offsets, i + j, rest[j])
    ensures forall j | 0 <= j < |rest[1..]| :: ItemIsAt(data, kind, offsets, i + 1 + j, rest[1..][j])
  {
    forall j | 0 <= j < |rest[1..]|
      ensures ItemIsAt(data, kind, offsets, i + 1 + j, rest[1..][j])
    {
      assert ItemIsAt(data, kind, offsets, i + (j + 1), rest[j + 1]);
    }
  }

  /**
   * An INDEX at p holding `items`, with the stream left at `next`: an empty
   * one is its two count bytes; otherwise the offSize is 1..4, the first
   * and last offsets can be sought to, each item is where its offsets put
   * it, and the stream ends at the last offset.
   */
  ghost predicate IndexAt(data: seq<byte>, p: nat, kind: IndexKind, items: seq<IndexItem>, next: int)
  {
    var count := U16(ShortAt(data, p));
    if count == 0 then items == [] && next == p + 2
    else
      var offSize := ByteOr0(data, p + 2) as int;
      var offsets := Offsets(data, p, count, offSize);
      && 1 <= offSize <= 4
      && 0 <= offsets[0] && 0 <= offsets[count] && next == offsets[count]
      && |items| == count
      && forall j | 0 <= j < count :: ItemIsAt(data, kind, offsets, j, items[j])
  }

  /** ReadIndexCFF returns exactly the items where the INDEX's offsets put them. */
  lemma ReadIndexPlaced(data: seq<byte>, p: nat, kind: IndexKind, items: seq<IndexItem>, next: int)
    ensures ReadIndex(data, p, kind) == Success(IndexRead(items, next)) <==> IndexAt(data, p, kind, items, next)
  {
    if ReadIndex(data, p, kind) == Success(IndexRead(items, next)) {
      ReadIndexSound(data, p, kind, items, next);
    }
    if IndexAt(data, p, kind, items, next) {
      ReadIndexComplete(data, p, kind, items, next);
    }
  }

  /** What ReadIndexCFF returns lies where the offsets put it. */
  lemma ReadIndexSound(data: seq<byte>, p: nat, kind: IndexKind, items: seq<IndexItem>, next: int)
    requires ReadIndex(data, p, kind) == Success(IndexRead(items, next))
    ensures IndexAt(data, p, kind, items, next)
  {
    var count := U16(ShortAt(data, p));
    if count > 0 {
      var offsets := Offsets(data, p, count, ByteOr0(data, p + 2) as int);
      ItemsPlaced(data, offsets, kind, 0, offsets[0], [], items);
    }
  }

  /** Items lying where the offsets put them are what ReadIndexCFF returns. */
  lemma ReadIndexComplete(data: seq<byte>, p: nat, kind: IndexKind, items: seq<IndexItem>, next: int)
    requires IndexAt(data, p, kind, items, next)
    ensures ReadIndex(data, p, kind) == Success(IndexRead(items, next))
  {
    var count := U16(ShortAt(data, p));
    if count > 0 {
      var offsets := Offsets(data, p, count, ByteOr0(data, p + 2) as int);
      PlacedItems(data, offsets, kind, 0, offsets[0], [], items);
      assert [] + items == items;
    }
  }

  // ---------------------------------------------------------------- writing

  /**
   * An item WriteIndexCFF is handed: a string, a dictionary, a Range or
   * GlyphData (bytes of the input font to copy), or a null element.
   */
  datatype IndexEntry = Text(text: string) | DictEntry(dict: seq<(int, CffObject)>) | Copy(offset: int, length: int) | Missing

  /** Every string the dictionaries of an index refer to is one of the n strings. */
  predicate EntriesRefsIn(index: seq<IndexEntry>, n: nat)
  {
    forall i | 0 <= i < |index| :: index[i].DictEntry? ==> DictRefsIn(index[i].dict, n)
  }

  /** ISO-8859-1 encoding: a character above 0xFF becomes '?'. */
  function Latin1Bytes(s: string): (r: seq<byte>)
    ensures |r| == |s| && forall i | 0 <= i < |s| :: s[i] as int < 256 ==> r[i] == s[i] as int
  {
    seq(|s|, i requires 0 <= i < |s| => if s[i] as int < 256 then s[i] as int else 63)
  }

  /** The placeholders an item holds, as one object: its dictionary's values, or nothing. */
  function EntryObject(e: IndexEntry): CffObject
  {
    if e.DictEntry? then Values(e.dict) else Objects([])
  }

  /** The placeholders of all the items, in order. */
  function IndexObject(index: seq<IndexEntry>): (r: CffObject)
    ensures r.Objects? && |r.items| == |index|
    ensures forall i | 0 <= i < |index| :: r.items[i] == EntryObject(index[i])
  {
    Objects(seq(|index|, i requires 0 <= i < |index| => EntryObject(index[i])))
  }

  /** The first item and the rest. */
  lemma IndexSplit(index: seq<IndexEntry>)
    requires index != []
    ensures forall tag :: TagCount(IndexObject(index), tag) == TagCount(EntryObject(index[0]), tag) + TagCount(IndexObject(index[1..]), tag)
  {
    assert IndexObject(index).items[1..] == IndexObject(index[1..]).items;
  }

  /** One pass of WriteIndexCFF's foreach on the data stream: the item's bytes, or the error writing them throws. */
  function EntryData(e: IndexEntry, sids: seq<int>, font: seq<byte>, s: Out): (r: Result<Out>)
    requires e.DictEntry? ==> DictRefsIn(e.dict, |sids|)
    ensures r.Success? ==> Extends(s, r.value)
  {
    match e
    case Text(str) => Success(Out(s.bytes + Latin1Bytes(str), s.offsets))
    case DictEntry(d) => EmitDict(d, sids, s)
    case Copy(o, len) =>
      if o < 0 then Failure(SEEK_ERROR)
      else Success(Out(s.bytes + Writer.Copied(font, o, len, Checksum.Zeros(Writer.COPY_BUFFER_SIZE)), s.offsets))
    case Missing => Failure(UNKNOWN_INDEX_TYPE)
  }

  /** The foreach from item k: item k, then the foreach from item k + 1. */
  lemma DataFromNext(index: seq<IndexEntry>, k: nat, sids: seq<int>, font: seq<byte>, s: Out, ends: seq<int>)
    requires k < |index| && EntriesRefsIn(index, |sids|)
    ensures EntriesRefsIn(index[k..], |sids|) && EntriesRefsIn(index[k + 1..], |sids|)
    ensures var x := EntryData(index[k], sids, font, s);
      DataFrom(index[k..], sids, font, s, ends)
      == if x.Failure? then Failure(x.error) else DataFrom(index[k + 1..], sids, font, x.value, ends + [|x.value.bytes|])
  {
    assert index[k..][0] == index[k] && index[k..][1..] == index[k + 1..];
  }

  /** Writing one item records a placeholder for each of its dictionary offsets. */
  lemma EntryRecorded(e: IndexEntry, sids: seq<int>, font: seq<byte>, s: Out)
    requires e.DictEntry? ==> DictRefsIn(e.dict, |sids|)
    ensures EntryData(e, sids, font, s).Success? ==> Recorded(EntryObject(e), s, EntryData(e, sids, font, s).value)
  {
    var r := EntryData(e, sids, font, s);
    if e.DictEntry? {
      DictRecorded(e.dict, sids, s);
    } else if r.Success? {
      assert r.value == Out(s.bytes + r.value.bytes[|s.bytes|..], s.offsets);
      RecordedNone(EntryObject(e), s, r.value.bytes[|s.bytes|..]);
    }
  }

  /**
   * WriteIndexCFF's foreach on the data stream from state s, with `ends`
   * the data length after each item so far: the final state and the
   * lengths after every item.
   */
  function DataFrom(index: seq<IndexEntry>, sids: seq<int>, font: seq<byte>, s: Out, ends: seq<int>): (r: Result<(Out, seq<int>)>)
    requires EntriesRefsIn(index, |sids|)
    ensures r.Success? ==> Extends(s, r.value.0)
    ensures r.Success? ==> |r.value.1| == |ends| + |index| && r.value.1[..|ends|] == ends
    ensures r.Success? && index != [] ==> r.value.1[|r.value.1| - 1] == |r.value.0.bytes|
    decreases |index|
  {
    if index == [] then Success((s, ends))
    else
      match EntryData(index[0], sids, font, s)
      case Failure(e) => Failure(e)
      case Success(s1) =>
        var r := DataFrom(index[1..], sids, font, s1, ends + [|s1.bytes|]);
        assert r.Success? ==> r.value.1[..|ends|] == r.value.1[..|ends| + 1][..|ends|];
        r
  }

  /** WriteIndexCFF's data stream records a placeholder for every dictionary offset of every item. */
  lemma {:induction false} DataRecorded(index: seq<IndexEntry>, sids: seq<int>, font: seq<byte>, s: Out, ends: seq<int>)
    requires EntriesRefsIn(index, |sids|)
    ensures var r := DataFrom(index, sids, font, s, ends);
      r.Success? ==> Recorded(IndexObject(index), s, r.value.0)
    decreases |index|
  {
    if index == [] {
      RecordedNone(IndexObject(index), s, []);
      assert Out(s.bytes + [], s.offsets) == s;
    } else if EntryData(index[0], sids, font, s).Success? {
      var s1 := EntryData(index[0], sids, font, s).value;
      EntryRecorded(index[0], sids, font, s);
      var r := DataFrom(index[1..], sids, font, s1, ends + [|s1.bytes|]);
      DataRecorded(index[1..], sids, font, s1, ends + [|s1.bytes|]);
      IndexSplit(index);
      RecordedThen(EntryObject(index[0]), IndexObject(index[1..]), IndexObject(index), s, s1, if r.Success? then r.value.0 else s1);
    }
  }

  /**
   * The offsets array after the foreach, with `ends` the data length after
   * each item: offsets[0] is 1; corrected, offsets[i + 1] is one past the
   * data of item i; as written the slot index stays 0, so only offsets[1]
   * is set (to one past all the data) and the others keep their 0.
   */
  function IndexOffsets(ends: seq<int>, corrected: bool): (r: seq<int>)
    ensures |r| == |ends| + 1 && r[0] == 1
    ensures corrected ==> forall i | 0 <= i < |ends| :: r[i + 1] == ends[i] + 1
    ensures !corrected && ends != [] ==> r[1] == ends[|ends| - 1] + 1 && forall i | 2 <= i <= |ends| :: r[i] == 0
  {
    seq(|ends| + 1, k requires 0 <= k <= |ends| =>
      if k == 0 then 1 else if corrected then ends[k - 1] + 1 else if k == 1 then ends[|ends| - 1] + 1 else 0)
  }

  /** The offsets written with WriteOffsetCff, one after the other. */
  function OffsetsBytes(offSize: int, offs: seq<int>): (r: seq<byte>)
    ensures 1 <= offSize <= 4 ==> |r| == offSize * |offs|
  {
    if offs == [] then [] else OffsetsBytes(offSize, offs[..|offs| - 1]) + OffsetBytes(offSize, offs[|offs| - 1])
  }

  /** The header WriteIndexCFF writes before the data: the count, the offSize for the last offset, the offsets. */
  function IndexHeader(count: int, offs: seq<int>): seq<byte>
    requires offs != []
  {
    var offSize := OffSizeFor(offs[|offs| - 1]);
    ShortBytes(count) + [offSize] + OffsetsBytes(offSize, offs)
  }

  /** Whether any item is a dictionary (WriteIndexCFF's adjastOffsets). */
  predicate HasDict(index: seq<IndexEntry>)
  {
    exists i | 0 <= i < |index| :: index[i].DictEntry?
  }

  /**
   * The rest of WriteIndexCFF once the data stream holds `data`, with `ends`
   * the data length after each item: the header is written, the
   * placeholders of the dictionaries are moved by the length of the stream
   * so far, and the data follows.
   */
  function IndexAround(index: seq<IndexEntry>, corrected: bool, s: Out, data: Out, ends: seq<int>): Out
  {
    var header := IndexHeader(|index|, IndexOffsets(ends, corrected));
    var adj := |s.bytes| + |header|;
    Out(s.bytes + header + data.bytes, IndexAdjusted(index, adj, data.offsets))
  }

  /** The placeholders after WriteIndexCFF's adjastOffsets step: moved by adj when some item is a dictionary. */
  function IndexAdjusted(index: seq<IndexEntry>, adj: int, offsets: map<nat, int>): map<nat, int>
  {
    if HasDict(index) then AdjustObject(IndexObject(index), adj, offsets) else offsets
  }

  /**
   * WriteIndexCFF on a stream in state s: the data goes to a separate
   * stream, then IndexAround. Corrected, an empty index is its count alone.
   */
  function IndexOut(index: seq<IndexEntry>, sids: seq<int>, font: seq<byte>, corrected: bool, s: Out): Result<Out>
    requires EntriesRefsIn(index, |sids|)
  {
    if corrected && index == [] then Success(Out(s.bytes + ShortBytes(0), s.offsets))
    else
      match DataFrom(index, sids, font, Out([], s.offsets), [])
      case Failure(e) => Failure(e)
      case Success((data, ends)) => Success(IndexAround(index, corrected, s, data, ends))
  }

  /** WriteIndexCFF: the count, then the foreach on a new data stream, the offSize and offsets, the adjustment, the data. */
  method WriteIndexCff(out: ByteStream, font: seq<byte>, index: seq<IndexEntry>, sids: seq<int>, offsets: map<nat, int>, corrected: bool)
    returns (r: Result<map<nat, int>>)
    requires EntriesRefsIn(index, |sids|)
    modifies out
    ensures var e := IndexOut(index, sids, font, corrected, Out(old(out.bytes), offsets));
      r.Success? == e.Success? && (r.Success? ==> out.bytes == e.value.bytes && r.value == e.value.offsets)
    ensures r.Failure? ==> r.error == IndexOut(index, sids, font, corrected, Out(old(out.bytes), offsets)).error
  {
    out.WriteShort(|index|);
    if corrected && |index| == 0 {
      return Success(offsets);
    }
    var data, slots, adjust, w := WriteIndexData(font, index, sids, offsets, corrected);
    if w.Failure? {
      return Failure(w.error);
    }
    ghost var e := DataFrom(index, sids, font, Out([], offsets), []).value;
    ghost var header := IndexHeader(|index|, IndexOffsets(e.1, corrected));
    var current := WriteIndexTail(out, index, corrected, data, slots, adjust, w.value, old(out.bytes), e.1);
    IndexOutAround(index, sids, font, corrected, Out(old(out.bytes), offsets), e.0, e.1, header);
    r := Success(current);
  }

  /** IndexOut once the data stream is written. */
  lemma IndexOutAround(index: seq<IndexEntry>, sids: seq<int>, font: seq<byte>, corrected: bool, s: Out, data: Out, ends: seq<int>, header: seq<byte>)
    requires EntriesRefsIn(index, |sids|) && !(corrected && index == [])
    requires DataFrom(index, sids, font, Out([], s.offsets), []) == Success((data, ends))
    requires header == IndexHeader(|index|, IndexOffsets(ends, corrected))
    ensures IndexOut(index, sids, font, corrected, s).Success?
    ensures IndexOut(index, sids, font, corrected, s).value.bytes == s.bytes + header + data.bytes
    ensures IndexOut(index, sids, font, corrected, s).value.offsets == IndexAdjusted(index, |s.bytes| + |header|, data.offsets)
  {
    assert IndexOut(index, sids, font, corrected, s) == Success(IndexAround(index, corrected, s, data, ends));
  }

  /**
   * WriteIndexCFF after the foreach, with the count already on `out` after
   * `start`: the offSize and the offsets, the adjustment of the
   * placeholders when some item is a dictionary, and the data.
   */
  method WriteIndexTail(out: ByteStream, index: seq<IndexEntry>, corrected: bool, data: ByteStream, slots: array<int>, adjust: bool,
                        current: map<nat, int>, ghost start: seq<byte>, ghost ends: seq<int>)
    returns (r: map<nat, int>)
    requires out != data && |ends| == |index| && slots[..] == IndexOffsets(ends, corrected)
    requires adjust == HasDict(index) && out.bytes == start + ShortBytes(|index|)
    modifies out
    ensures out.bytes == start + IndexHeader(|index|, IndexOffsets(ends, corrected)) + data.bytes
    ensures r == IndexAdjusted(index, |start| + |IndexHeader(|index|, IndexOffsets(ends, corrected))|, current)
  {
    ghost var offs := IndexOffsets(ends, corrected);
    WriteOffSizeAndOffsets(out, slots);
    HeaderSplit(start, |index|, offs);
    ghost var header := IndexHeader(|index|, offs);
    assert |out.bytes| == |start| + |header|;
    r := current;
    if adjust {
      r := AdjustIndexCff(index, |out.bytes|, current);
    }
    out.Write(data.bytes);
  }

  /** The count, the offSize byte and the offsets written one after the other are the index header. */
  lemma HeaderSplit(start: seq<byte>, count: int, offs: seq<int>)
    requires offs != []
    ensures var offSize := OffSizeFor(offs[|offs| - 1]);
      start + ShortBytes(count) + ([offSize] + OffsetsBytes(offSize, offs)) == start + IndexHeader(count, offs)
  {
    var offSize := OffSizeFor(offs[|offs| - 1]);
    var tail := OffsetsBytes(offSize, offs);
    AppendAssoc(ShortBytes(count), [offSize], tail);
    AppendAssoc(start, ShortBytes(count), [offSize] + tail);
  }

  /** The offSize byte for the last offset, then the offsets (the part of WriteIndexCFF's header after the count). */
  method WriteOffSizeAndOffsets(out: ByteStream, slots: array<int>)
    requires slots.Length > 0
    modifies out
    ensures var offSize := OffSizeFor(slots[slots.Length - 1]);
      out.bytes == old(out.bytes) + ([offSize] + OffsetsBytes(offSize, slots[..]))
  {
    var offSize := OffSizeFor(slots[slots.Length - 1]);
    out.WriteByte(offSize);
    WriteOffsetsCff(out, offSize, slots);
  }

  /**
   * The foreach of WriteIndexCFF: each item to a new data stream, one past
   * the data so far into offsets[i + 1], the slot index i advanced only
   * when corrected, and whether any item was a dictionary.
   */
  method WriteIndexData(font: seq<byte>, index: seq<IndexEntry>, sids: seq<int>, offsets: map<nat, int>, corrected: bool)
    returns (data: ByteStream, slots: array<int>, adjust: bool, r: Result<map<nat, int>>)
    requires EntriesRefsIn(index, |sids|)
    ensures fresh(data) && fresh(slots) && slots.Length == |index| + 1
    ensures var e := DataFrom(index, sids, font, Out([], offsets), []);
      r.Success? == e.Success? &&
      (r.Success? ==> data.bytes == e.value.0.bytes && r.value == e.value.0.offsets &&
                      slots[..] == IndexOffsets(e.value.1, corrected) && adjust == HasDict(index))
    ensures r.Failure? ==> r.error == DataFrom(index, sids, font, Out([], offsets), []).error
  {
    data := new ByteStream();
    slots := new int[|index| + 1](_ => 0);
    slots[0] := 1;
    assert slots[..] == IndexOffsets([], corrected) + Checksum.Zeros(|index|);
    adjust := false;
    var current := offsets;
    var i := 0;
    var k := 0;
    ghost var ends: seq<int> := [];
    ghost var want := DataFrom(index, sids, font, Out([], offsets), []);
    assert index[0..] == index;
    while k < |index|
      invariant 0 <= k <= |index| && |ends| == k && i == (if corrected then k else 0)
      invariant fresh(data) && fresh(slots) && slots.Length == |index| + 1
      invariant DataFrom(index[k..], sids, font, Out(data.bytes, current), ends) == want
      invariant slots[..] == IndexOffsets(ends, corrected) + Checksum.Zeros(|index| - k)
      invariant adjust == HasDict(index[..k])
    {
      HasDictPrefix(index, k);
      var step := WriteIndexItem(data, slots, font, index, sids, current, k, i, corrected, ends);
      if step.Failure? {
        return data, slots, adjust, Failure(step.error);
      }
      current := step.value;
      adjust := adjust || index[k].DictEntry?;
      if corrected {
        i := i + 1;
      }
      ends := ends + [|data.bytes|];
      k := k + 1;
    }
    assert index[..k] == index && index[k..] == [];
    assert slots[..] == IndexOffsets(ends, corrected) + [];
    r := Success(current);
  }

  /** The body of WriteIndexCFF's foreach for one item, on the data stream. */
  method WriteEntryCff(data: ByteStream, font: seq<byte>, e: IndexEntry, sids: seq<int>, offsets: map<nat, int>) returns (r: Result<map<nat, int>>)
    requires e.DictEntry? ==> DictRefsIn(e.dict, |sids|)
    modifies data
    ensures var x := EntryData(e, sids, font, Out(old(data.bytes), offsets));
      r.Success? == x.Success? && (r.Success? ==> data.bytes == x.value.bytes && r.value == x.value.offsets)
    ensures r.Failure? ==> r.error == EntryData(e, sids, font, Out(old(data.bytes), offsets)).error
  {
    match e
    case Text(str) =>
      data.Write(Latin1Bytes(str));
      r := Success(offsets);
    case DictEntry(d) =>
      r := WriteDictCff(data, d, sids, offsets);
    case Copy(o, len) =>
      var ok := Writer.CopyBytes(data, font, o, len);
      if !ok {
        return Failure(SEEK_ERROR);
      }
      r := Success(offsets);
    case Missing =>
      r := Failure(UNKNOWN_INDEX_TYPE);
  }

  /** Whether the first k + 1 items hold a dictionary. */
  lemma HasDictPrefix(index: seq<IndexEntry>, k: nat)
    requires k < |index|
    ensures HasDict(index[..k + 1]) == (HasDict(index[..k]) || index[k].DictEntry?)
  {
    assert index[..k + 1][k] == index[k];
    if HasDict(index[..k]) {
      var m :| 0 <= m < k && index[..k][m].DictEntry?;
      assert index[..k + 1][m].DictEntry?;
    }
  }

  /** One pass of WriteIndexCFF's foreach: item k to the data stream, and one past the data so far into offsets[i + 1]. */
  method WriteIndexItem(data: ByteStream, slots: array<int>, font: seq<byte>, index: seq<IndexEntry>, sids: seq<int>,
                        current: map<nat, int>, k: nat, i: int, corrected: bool, ghost ends: seq<int>)
    returns (step: Result<map<nat, int>>)
    requires k < |index| && EntriesRefsIn(index, |sids|) && |ends| == k && i == (if corrected then k else 0)
    requires slots[..] == IndexOffsets(ends, corrected) + Checksum.Zeros(|index| - k)
    modifies data, slots
    ensures var rest := DataFrom(index[k..], sids, font, Out(old(data.bytes), current), ends);
      (step.Failure? ==> rest == Failure(step.error)) &&
      (step.Success? ==> rest == DataFrom(index[k + 1..], sids, font, Out(data.bytes, step.value), ends + [|data.bytes|]) &&
                         slots[..] == IndexOffsets(ends + [|data.bytes|], corrected) + Checksum.Zeros(|index| - k - 1))
  {
    ghost var s0 := Out(data.bytes, current);
    DataFromNext(index, k, sids, font, s0, ends);
    step := WriteEntryCff(data, font, index[k], sids, current);
    if step.Success? {
      assert Out(data.bytes, step.value) == EntryData(index[k], sids, font, s0).value;
      SetOffset(slots, i, |data.bytes|, corrected, ends, |index| - k);
    }
  }

  /** offsets[i + 1] = data.Length + 1, for the item after those with data lengths `ends`. */
  method SetOffset(slots: array<int>, i: int, x: int, corrected: bool, ghost ends: seq<int>, ghost rest: nat)
    requires rest > 0 && i == (if corrected then |ends| else 0)
    requires slots[..] == IndexOffsets(ends, corrected) + Checksum.Zeros(rest)
    modifies slots
    ensures slots[..] == IndexOffsets(ends + [x], corrected) + Checksum.Zeros(rest - 1)
  {
    OffsetsSnoc(ends, x, corrected, rest);
    slots[i + 1] := x + 1;
  }

  /** The offsets after one more item: its end goes into slot |ends| + 1, corrected, or slot 1, as written. */
  lemma OffsetsSnoc(ends: seq<int>, x: int, corrected: bool, rest: nat)
    requires rest > 0
    ensures IndexOffsets(ends + [x], corrected) + Checksum.Zeros(rest - 1)
         == (IndexOffsets(ends, corrected) + Checksum.Zeros(rest))[(if corrected then |ends| + 1 else 1) := x + 1]
  {
  }

  /** The foreach over the offsets array, each written with WriteOffsetCff. */
  method WriteOffsetsCff(out: ByteStream, offSize: int, slots: array<int>)
    modifies out
    ensures out.bytes == old(out.bytes) + OffsetsBytes(offSize, slots[..])
  {
    var j := 0;
    while j < slots.Length
      invariant 0 <= j <= slots.Length
      invariant out.bytes == old(out.bytes) + OffsetsBytes(offSize, slots[..j])
    {
      WriteOffsetCff(out, offSize, slots[j]);
      assert slots[..j + 1][..j] == slots[..j];
      j := j + 1;
    }
    assert slots[..] == slots[..slots.Length];
  }

  /** The foreach calling AdjustOffsetDictCFF on every dictionary item. */
  method AdjustIndexCff(index: seq<IndexEntry>, adj: int, offsets: map<nat, int>) returns (r: map<nat, int>)
    ensures r == AdjustObject(IndexObject(index), adj, offsets)
  {
    r := offsets;
    ghost var items := IndexObject(index).items;
    var k := 0;
    while k < |index|
      invariant 0 <= k <= |index|
      invariant AdjustItems(items[k..], adj, r) == AdjustObject(IndexObject(index), adj, offsets)
    {
      assert items[k..][0] == items[k] && items[k..][1..] == items[k + 1..];
      if index[k].DictEntry? {
        r := AdjustObject(Values(index[k].dict), adj, r);
      }
      k := k + 1;
    }
  }
}
