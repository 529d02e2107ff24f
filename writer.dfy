/**
 * OpenTypeFont.WriteTables: the subset font file.  It is the 12-byte
 * offset table, one 16-byte directory record per needed table, the needed
 * tables' bodies padded to 4 bytes in directory order, and finally the
 * 'head' checkSumAdjustment that makes the checksum of the whole file
 * 0xB1B0AFBA.  Tables that are not rebuilt are copied from the input font
 * with CopyBytes; the input font is the parameter `font`.
 */
module Writer {
  import opened BigEndian
  import opened Checksum
  import opened Sfnt
  import opened Outcome

  /** The sfnt version WriteTables writes for TrueType outlines. */
  const TRUE_TYPE_VERSION: int := 0x10000

  /** The bytes 'O', 'T', 'T', 'O' WriteTables writes for CFF outlines. */
  const OTTO_BYTES: seq<byte> := [0x4F, 0x54, 0x54, 0x4F]

  /** The size of CopyBytes' read buffer. */
  const COPY_BUFFER_SIZE: int := 256

  /** The number of needed tables of es. */
  function NeededCount(es: seq<TableEntry>): (r: nat)
    ensures r <= |es|
  {
    if es == [] then 0 else NeededCount(es[..|es| - 1]) + (if es[|es| - 1].needed then 1 else 0)
  }

  /** The exponent floorPowerOf2 finds, as a function: the position of the highest set bit (0 for 0 and 1). */
  function FloorLog2(n: int): nat
    decreases n
  {
    if n < 2 then 0 else 1 + FloorLog2(n / 2)
  }

  lemma {:induction false} FloorLog2Correct(n: int)
    requires n >= 0
    ensures IsFloorLog2(n, FloorLog2(n))
    decreases n
  {
    if n >= 2 {
      var h := n / 2;
      FloorLog2Correct(h);
      var e := FloorLog2(h);
      assert Pow2(e + 2) == 2 * Pow2(e + 1);
      assert Pow2(e + 1) == 2 * Pow2(e);
      assert n <= 2 * h + 1;
      if e == 0 {
        assert Pow2(1) == 2;
      }
    }
  }

  /** The 12-byte offset table: version, numTables, searchRange, entrySelector, rangeShift. */
  function VersionBytes(trueType: bool): (r: seq<byte>)
    ensures |r| == 4
  {
    if trueType then IntBytes(TRUE_TYPE_VERSION) else OTTO_BYTES
  }

  function FileHeader(trueType: bool, numTables: int): (r: seq<byte>)
    ensures |r| == 12
  {
    var log := FloorLog2(numTables);
    var searchRange := ShiftLeft(1, log + 4);
    VersionBytes(trueType) + ShortBytes(numTables) + ShortBytes(searchRange) + ShortBytes(log) + ShortBytes(numTables * 16 - searchRange)
  }

  /**
   * The directory record of a needed table: its tag, then checksum, offset
   * from the start of the file and length, taken from the original record
   * for a table copied as is and computed from the new content otherwise.
   */
  function DirEntry(e: TableEntry, base: int): (r: seq<byte>)
    ensures |r| == 16
  {
    var checkSum := if e.newContent.Some? then TableCheckSum(e.newContent.value) else e.checkSum;
    var length := if e.newContent.Some? then |e.newContent.value| else e.length;
    IntBytes(e.tag) + IntBytes(checkSum) + IntBytes(e.newRelativeOffset + base) + IntBytes(length)
  }

  /** The directory records of the needed tables of es, in order. */
  function Directory(es: seq<TableEntry>, base: int): (r: seq<byte>)
    ensures |r| == 16 * NeededCount(es)
  {
    if es == [] then []
    else
      var last := es[|es| - 1];
      Directory(es[..|es| - 1], base) + (if last.needed then DirEntry(last, base) else [])
  }

  /** How many of r bytes a read at pos returns from a stream holding font. */
  function Available(font: seq<byte>, pos: int, r: int): (n: int)
    requires 0 <= pos && 0 <= r
    ensures 0 <= n <= r && (n > 0 ==> pos + n <= |font|)
  {
    if pos >= |font| then 0 else if |font| - pos < r then |font| - pos else r
  }

  /**
   * What CopyBytes writes for len bytes from pos, chunk by chunk through
   * its buffer: each chunk reads what the stream still has into the front
   * of the buffer and writes the first chunk-size bytes of the buffer, so
   * past the end of the input the bytes of the previous chunk (zeros at
   * first) are written again.
   */
  function Copied(font: seq<byte>, pos: int, len: int, buffer: seq<byte>): (r: seq<byte>)
    requires 0 <= pos && |buffer| == COPY_BUFFER_SIZE
    ensures |r| == (if len > 0 then len else 0)
    decreases len
  {
    if len <= 0 then []
    else
      var chunk := if len > COPY_BUFFER_SIZE then COPY_BUFFER_SIZE else len;
      var n := Available(font, pos, chunk);
      var filled := (if n > 0 then font[pos..pos + n] else []) + buffer[n..];
      filled[..chunk] + Copied(font, pos + n, len - chunk, filled)
  }

  /** Within the input, CopyBytes copies exactly the bytes asked for, whatever the buffer held. */
  lemma {:induction false} CopiedInBounds(font: seq<byte>, pos: int, len: int, buffer: seq<byte>)
    requires 0 <= pos && 0 <= len && pos + len <= |font| && |buffer| == COPY_BUFFER_SIZE
    ensures Copied(font, pos, len, buffer) == font[pos..pos + len]
    decreases len
  {
    if len > 0 {
      var chunk := if len > COPY_BUFFER_SIZE then COPY_BUFFER_SIZE else len;
      var filled := font[pos..pos + chunk] + buffer[chunk..];
      CopiedInBounds(font, pos + chunk, len - chunk, filled);
      assert filled[..chunk] == font[pos..pos + chunk];
      assert font[pos..pos + len] == font[pos..pos + chunk] + font[pos + chunk..pos + len];
    }
  }

  /** CopyBytes seeks to the table's offset first, which fails for a negative offset. */
  predicate Copyable(es: seq<TableEntry>)
  {
    forall j | 0 <= j < |es| :: es[j].needed && es[j].newContent.None? ==> es[j].offset >= 0
  }

  /** The body of a needed table: its new content and zero padding, or its original bytes rounded up to 4. */
  function Body(e: TableEntry, font: seq<byte>): (r: seq<byte>)
    requires e.newContent.None? ==> e.offset >= 0
  {
    match e.newContent
    case Some(c) => c + Zeros(PadCount(|c|))
    case None => Copied(font, e.offset, Padded4(e.length), Zeros(COPY_BUFFER_SIZE))
  }

  /** A body is as long as the layout reserves for it. */
  lemma BodyLength(e: TableEntry, font: seq<byte>)
    requires e.newContent.None? ==> e.offset >= 0
    requires LaidLength(e) >= 0
    ensures |Body(e, font)| == Padded4(LaidLength(e))
  {
  }

  /** The bodies of the needed tables of es, in order. */
  function Bodies(es: seq<TableEntry>, font: seq<byte>): seq<byte>
    requires Copyable(es)
  {
    if es == [] then []
    else
      var last := es[|es| - 1];
      Bodies(es[..|es| - 1], font) + (if last.needed then Body(last, font) else [])
  }

  /** The first table with the given tag (the table Header.TableMap holds under it, tags being unique). */
  function FindTag(es: seq<TableEntry>, tag: int): (r: Option<nat>)
    ensures r.Some? ==> r.value < |es| && es[r.value].tag == tag
    ensures r.None? ==> forall j | 0 <= j < |es| :: es[j].tag != tag
  {
    if es == [] then None
    else
      match FindTag(es[..|es| - 1], tag)
      case Some(j) => Some(j)
      case None => if es[|es| - 1].tag == tag then Some(|es| - 1) else None
  }

  /** Where the directory records end and the first body begins. */
  function BaseOffset(es: seq<TableEntry>): int
  {
    NeededCount(es) * 16 + 12
  }

  /** Offset table, directory and bodies, before the checkSumAdjustment is stored. */
  function Assembled(es: seq<TableEntry>, trueType: bool, font: seq<byte>): seq<byte>
    requires Copyable(es)
  {
    FileHeader(trueType, NeededCount(es)) + Directory(es, BaseOffset(es)) + Bodies(es, font)
  }

  /** Where WriteTables stores checkSumAdjustment: 8 bytes into the 'head' body. */
  function AdjustmentIndex(es: seq<TableEntry>, head: nat): int
    requires head < |es|
  {
    es[head].newRelativeOffset + BaseOffset(es) + 8
  }

  /**
   * The outcome of WriteTables: the assembled file with checkSumAdjustment
   * stored, or the exception it stops with: a seek to a negative table
   * offset, no 'head' table, or an adjustment index outside the file.
   */
  function Written(es: seq<TableEntry>, trueType: bool, font: seq<byte>): Result<seq<byte>>
  {
    if !Copyable(es) then Failure(SEEK_ERROR)
    else
      match FindTag(es, HEAD)
      case None => Failure("The given key 'head' was not present in the dictionary.")
      case Some(h) =>
        Adjusted(Assembled(es, trueType, font), AdjustmentIndex(es, h))
  }

  /**
   * The assembled file with checkSumAdjustment stored at index: the magic
   * number less the checksum of the whole file, wrapped to 32 bits.
   */
  function Adjusted(file: seq<byte>, index: int): Result<seq<byte>>
  {
    if 0 <= index && index + 4 <= |file| then
      Success(file[..index] + IntBytes(ToInt32(CHECKSUM_MAGIC - TableCheckSum(file))) + file[index + 4..])
    else
      Failure("Index was outside the bounds of the array.")
  }

  /**
   * OpenTypeFont.CopyBytes: seeks the input to offset, then copies len
   * bytes through a 256-byte buffer.  The count a read returns is ignored,
   * so a read past the end of the input leaves stale buffer bytes that are
   * written all the same.
   */
  method CopyBytes(out: ByteStream, font: seq<byte>, offset: int, len: int) returns (ok: bool)
    modifies out
    ensures ok == (offset >= 0)
    ensures ok ==> out.bytes == old(out.bytes) + Copied(font, offset, len, Zeros(COPY_BUFFER_SIZE))
    ensures !ok ==> out.bytes == old(out.bytes)
  {
    if offset < 0 {
      return false;
    }
    var buffer := new byte[COPY_BUFFER_SIZE](_ => 0);
    assert buffer[..] == Zeros(COPY_BUFFER_SIZE);
    ghost var start := out.bytes;
    ghost var total := Copied(font, offset, len, buffer[..]);
    ghost var written: seq<byte> := [];
    ghost var contents := buffer[..];
    ghost var left := total;
    var pos := offset;
    var remaining := len;
    while remaining > 0
      invariant pos >= 0 && buffer[..] == contents
      invariant out.bytes == start + written
      invariant left == Copied(font, pos, remaining, contents) && written + left == total
      decreases remaining
    {
      ghost var before := contents;
      var n, r := CopyChunk(out, font, pos, remaining, buffer);
      ghost var filled := buffer[..];
      ghost var rest := Copied(font, pos + n, remaining - r, filled);
      CopiedUnfold(font, pos, remaining, before, r, n, filled);
      AppendAssoc(written, filled[..r], rest);
      AppendAssoc(start, written, filled[..r]);
      assert (written + filled[..r]) + rest == total;
      written, contents, left := written + filled[..r], filled, rest;
      pos := pos + n;
      remaining := remaining - r;
    }
    assert written == total;
    return true;
  }

  /** One pass of CopyBytes' loop: fill the buffer from the font and write a chunk of it. */
  method CopyChunk(out: ByteStream, font: seq<byte>, pos: int, remaining: int, buffer: array<byte>)
    returns (n: int, r: int)
    requires 0 <= pos && 0 < remaining && buffer.Length == COPY_BUFFER_SIZE
    modifies out, buffer
    ensures r == (if remaining > COPY_BUFFER_SIZE then COPY_BUFFER_SIZE else remaining)
    ensures n == Available(font, pos, r)
    ensures buffer[..] == (if n > 0 then font[pos..pos + n] else []) + old(buffer[..])[n..]
    ensures out.bytes == old(out.bytes) + buffer[..r]
  {
    r := remaining;
    if r > COPY_BUFFER_SIZE {
      r := COPY_BUFFER_SIZE;
    }
    n := Available(font, pos, r);
    forall k | 0 <= k < n {
      buffer[k] := font[pos + k];
    }
    out.Write(buffer[..r]);
  }

  /** One chunk of Copied, with the chunk's quantities named. */
  lemma CopiedUnfold(font: seq<byte>, pos: int, len: int, buffer: seq<byte>, chunk: int, n: int, filled: seq<byte>)
    requires 0 <= pos && 0 < len && |buffer| == COPY_BUFFER_SIZE
    requires chunk == (if len > COPY_BUFFER_SIZE then COPY_BUFFER_SIZE else len)
    requires n == Available(font, pos, chunk)
    requires filled == (if n > 0 then font[pos..pos + n] else []) + buffer[n..]
    ensures Copied(font, pos, len, buffer) == filled[..chunk] + Copied(font, pos + n, len - chunk, filled)
  {
  }

  /** The "file header" part of WriteTables. */
  method WriteHeader(out: ByteStream, trueType: bool, numTables: int)
    requires 0 <= numTables <= 0x7FFF
    modifies out
    ensures out.bytes == old(out.bytes) + FileHeader(trueType, numTables)
  {
    ghost var start := out.bytes;
    WriteVersion(out, trueType);
    ghost var written := VersionBytes(trueType);
    AppendAssoc(start, written, ShortBytes(numTables));
    out.WriteShort(numTables);
    written := written + ShortBytes(numTables);
    var found := FloorPowerOf2(numTables);
    var log := found.value;
    FloorLog2Correct(numTables);
    FloorLog2Unique(numTables, log, FloorLog2(numTables));
    var entrySelector := log;
    var searchRange := ShiftLeft(1, log + 4);
    var rangeShift := numTables * 16 - searchRange;
    AppendAssoc(start, written, ShortBytes(searchRange));
    out.WriteShort(searchRange);
    written := written + ShortBytes(searchRange);
    AppendAssoc(start, written, ShortBytes(entrySelector));
    out.WriteShort(entrySelector);
    written := written + ShortBytes(entrySelector);
    AppendAssoc(start, written, ShortBytes(rangeShift));
    out.WriteShort(rangeShift);
    written := written + ShortBytes(rangeShift);
    assert out.bytes == start + written;
    HeaderFields(trueType, numTables, log);
    assert written == FileHeader(trueType, numTables);
  }

  /** The sfnt version: 0x00010000 for TrueType outlines, the tag 'OTTO' for CFF outlines. */
  method WriteVersion(out: ByteStream, trueType: bool)
    modifies out
    ensures out.bytes == old(out.bytes) + VersionBytes(trueType)
  {
    if trueType {
      out.WriteInt(TRUE_TYPE_VERSION);
    } else {
      out.WriteByte('O' as int);
      out.WriteByte('T' as int);
      out.WriteByte('T' as int);
      out.WriteByte('O' as int);
    }
  }

  /** The offset table spelled out field by field for the exponent log. */
  lemma HeaderFields(trueType: bool, numTables: int, log: int)
    requires log == FloorLog2(numTables)
    ensures FileHeader(trueType, numTables)
         == VersionBytes(trueType) + ShortBytes(numTables)
            + ShortBytes(ShiftLeft(1, log + 4)) + ShortBytes(log) + ShortBytes(numTables * 16 - ShiftLeft(1, log + 4))
  {
  }

  /** The counting loop at the start of WriteTables. */
  method CountNeeded(entries: seq<TableEntry>) returns (numTables: int)
    ensures numTables == NeededCount(entries)
  {
    numTables := 0;
    var i := 0;
    while i < |entries|
      invariant 0 <= i <= |entries|
      invariant numTables == NeededCount(entries[..i])
    {
      assert entries[..i + 1][..i] == entries[..i];
      if entries[i].needed {
        numTables := numTables + 1;
      }
      i := i + 1;
    }
    assert entries[..i] == entries;
  }

  /** One directory record: the tag bytes, then checksum, offset and length. */
  method WriteDirEntry(out: ByteStream, entry: TableEntry, baseOffset: int)
    modifies out
    ensures out.bytes == old(out.bytes) + DirEntry(entry, baseOffset)
  {
    ghost var start := out.bytes;
    out.WriteInt(entry.tag);
    ghost var written := IntBytes(entry.tag);
    var checkSum := entry.checkSum;
    var length := entry.length;
    if entry.newContent != None {
      checkSum := CalculateTableCheckSum(entry.newContent.value);
      length := |entry.newContent.value|;
    }
    AppendAssoc(start, written, IntBytes(checkSum));
    out.WriteInt(checkSum);
    written := written + IntBytes(checkSum);
    AppendAssoc(start, written, IntBytes(entry.newRelativeOffset + baseOffset));
    out.WriteInt(entry.newRelativeOffset + baseOffset);
    written := written + IntBytes(entry.newRelativeOffset + baseOffset);
    AppendAssoc(start, written, IntBytes(length));
    out.WriteInt(length);
  }

  /** The "table entries" part of WriteTables. */
  method WriteDirectory(out: ByteStream, entries: seq<TableEntry>, baseOffset: int)
    modifies out
    ensures out.bytes == old(out.bytes) + Directory(entries, baseOffset)
  {
    var i := 0;
    while i < |entries|
      invariant 0 <= i <= |entries|
      invariant out.bytes == old(out.bytes) + Directory(entries[..i], baseOffset)
    {
      assert entries[..i + 1][..i] == entries[..i];
      if entries[i].needed {
        AppendAssoc(old(out.bytes), Directory(entries[..i], baseOffset), DirEntry(entries[i], baseOffset));
        WriteDirEntry(out, entries[i], baseOffset);
      }
      i := i + 1;
    }
    assert entries[..i] == entries;
  }

  /** One table body: new content and its zero padding, or the original bytes copied. */
  method WriteBody(out: ByteStream, entry: TableEntry, font: seq<byte>) returns (ok: bool)
    modifies out
    ensures ok == (entry.newContent.None? ==> entry.offset >= 0)
    ensures ok ==> out.bytes == old(out.bytes) + Body(entry, font)
  {
    match entry.newContent {
      case Some(content) =>
        out.Write(content);
        var padCount := PadCount(|content|);
        while padCount > 0
          invariant 0 <= padCount <= PadCount(|content|)
          invariant out.bytes == old(out.bytes) + content + Zeros(PadCount(|content|) - padCount)
        {
          out.WriteByte(0);
          assert Zeros(PadCount(|content|) - padCount) + [0] == Zeros(PadCount(|content|) - padCount + 1);
          padCount := padCount - 1;
        }
        ok := true;
      case None =>
        ok := CopyBytes(out, font, entry.offset, Padded4(entry.length));
    }
  }

  /** The "table content" part of WriteTables; it stops at the first failed seek. */
  method WriteBodies(out: ByteStream, entries: seq<TableEntry>, font: seq<byte>) returns (ok: bool)
    modifies out
    ensures ok == Copyable(entries)
    ensures ok ==> out.bytes == old(out.bytes) + Bodies(entries, font)
  {
    var i := 0;
    while i < |entries|
      invariant 0 <= i <= |entries|
      invariant Copyable(entries[..i])
      invariant out.bytes == old(out.bytes) + Bodies(entries[..i], font)
    {
      assert entries[..i + 1][..i] == entries[..i];
      if entries[i].needed {
        ok := WriteBody(out, entries[i], font);
        if !ok {
          return;
        }
        AppendAssoc(old(out.bytes), Bodies(entries[..i], font), Body(entries[i], font));
      }
      i := i + 1;
    }
    assert entries[..i] == entries;
    ok := true;
  }

  /**
   * OpenTypeFont.WriteTables over the swept directory: writes the offset
   * table, the directory and the bodies, then computes the checksum of the
   * whole file and stores 0xB1B0AFBA minus it as the 'head'
   * checkSumAdjustment.  The directory of a font has at most 0x7FFF
   * entries, its table count being a signed 16-bit field.
   */
  method WriteTables(entries: seq<TableEntry>, trueType: bool, font: seq<byte>) returns (r: Result<seq<byte>>)
    requires |entries| <= 0x7FFF
    ensures r == Written(entries, trueType, font)
  {
    var ok, bytes, baseOffset := Assemble(entries, trueType, font);
    if !ok {
      return Failure(SEEK_ERROR);
    }
    var head := FindTag(entries, HEAD);
    if head.None? {
      return Failure("The given key 'head' was not present in the dictionary.");
    }
    r := Adjust(bytes, entries[head.value].newRelativeOffset + baseOffset + 8);
  }

  /** The header, directory and bodies, written to a fresh stream. */
  method Assemble(entries: seq<TableEntry>, trueType: bool, font: seq<byte>)
    returns (ok: bool, bytes: seq<byte>, baseOffset: int)
    requires |entries| <= 0x7FFF
    ensures ok == Copyable(entries) && baseOffset == BaseOffset(entries)
    ensures ok ==> bytes == Assembled(entries, trueType, font)
  {
    var out := new ByteStream();
    var numTables := CountNeeded(entries);
    WriteHeader(out, trueType, numTables);
    baseOffset := numTables * 16 + 12;
    WriteDirectory(out, entries, baseOffset);
    ghost var front := out.bytes;
    ok := WriteBodies(out, entries, font);
    bytes := out.bytes;
  }

  /** Copies the file to an array, computes its checksum and stores the adjustment at index. */
  method Adjust(bytes: seq<byte>, index: int) returns (r: Result<seq<byte>>)
    ensures r == Adjusted(bytes, index)
  {
    var result := new byte[|bytes|](k requires 0 <= k < |bytes| => bytes[k]);
    assert result[..] == bytes;
    var checkSumTotal := CalculateTableCheckSum(result[..]);
    var checkSumAdjustment := ToInt32(CHECKSUM_MAGIC - checkSumTotal);
    if index < 0 || index + 4 > result.Length {
      return Failure("Index was outside the bounds of the array.");
    }
    SetIntAtIndex(result, index, checkSumAdjustment);
    return Success(result[..]);
  }
}
