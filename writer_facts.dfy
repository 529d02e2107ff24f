/**
 * What the file OpenTypeFont.WriteTables produces means: an offset table
 * whose search fields follow the OpenType rules, a table directory whose
 * records point at the bodies that follow it, and, once checkSumAdjustment
 * is stored, a whole-file checksum equal to 0xB1B0AFBA.
 */
module WriterFacts {
  import opened BigEndian
  import opened Checksum
  import opened Sfnt
  import opened Outcome
  import opened Writer

  /** A slice of the right-hand part of a concatenation. */
  lemma SliceRight<T>(a: seq<T>, b: seq<T>, i: int, j: int)
    requires 0 <= i <= j <= |b|
    ensures (a + b)[|a| + i..|a| + j] == b[i..j]
  {
  }

  /** A slice within a prefix of a sequence. */
  lemma SliceOfPrefix<T>(p: seq<T>, s: seq<T>, i: int, j: int)
    requires p <= s && 0 <= i <= j <= |p|
    ensures s[i..j] == p[i..j]
  {
    assert s[..|p|] == p;
  }

  /** A slice of a slice is a slice. */
  lemma SliceOfSlice<T>(s: seq<T>, i: int, j: int, k: int, l: int)
    requires 0 <= i <= j <= |s| && 0 <= k <= l <= j - i
    ensures s[i..j][k..l] == s[i + k..i + l]
  {
    forall t | 0 <= t < l - k
      ensures s[i..j][k..l][t] == s[i + k..i + l][t]
    {
      assert s[i..j][k..l][t] == s[i..j][k + t];
    }
  }

  /** The four words of a 16-byte record. */
  lemma Quarters<T>(r: seq<T>, w: seq<T>, x: seq<T>, y: seq<T>, z: seq<T>)
    requires |w| == |x| == |y| == |z| == 4 && r == w + x + y + z
    ensures r[..4] == w && r[4..8] == x && r[8..12] == y && r[12..16] == z
  {
  }

  /** The five fields of the 12-byte offset table. */
  lemma HeaderParts<T>(h: seq<T>, v: seq<T>, a: seq<T>, b: seq<T>, c: seq<T>, d: seq<T>)
    requires |v| == 4 && |a| == |b| == |c| == |d| == 2 && h == v + a + b + c + d
    ensures h[..4] == v && h[4..6] == a && h[6..8] == b && h[8..10] == c && h[10..12] == d
  {
  }

  /** Reading a stored 32-bit value back from anywhere in a buffer. */
  lemma GetIntAt(buf: seq<byte>, offset: int, n: int)
    requires 0 <= offset && offset + 4 <= |buf| && buf[offset..offset + 4] == IntBytes(n)
    ensures GetInt(buf, offset) == ToInt32(n)
  {
    GetIntOfIntBytes([], n);
    assert ([] + IntBytes(n))[0..4] == buf[offset..offset + 4];
  }

  /** Two bytes written by WriteShort read back as n modulo 2^16. */
  lemma ShortBytesValue(n: int)
    ensures Unsigned(ShortBytes(n)) == n % TWO_16
  {
    ShortBytesPacking(n);
    UnsignedOfBytesOf(n, 2);
    Pow256Values();
  }

  /**
   * The offset table of a font with 1 to 4095 tables: the version, then
   * numTables, searchRange = 16 times the largest power of 2 not above
   * numTables, entrySelector = the exponent of that power, and rangeShift =
   * 16 * numTables - searchRange, each as an unsigned 16-bit field.
   */
  lemma HeaderReadBack(trueType: bool, n: int)
    requires 1 <= n < 0x1000
    ensures var h := FileHeader(trueType, n);
      && h[..4] == VersionBytes(trueType)
      && Unsigned(h[4..6]) == n
      && IsFloorLog2(n, Unsigned(h[8..10]))
      && Unsigned(h[6..8]) == 16 * Pow2(Unsigned(h[8..10]))
      && Unsigned(h[10..12]) == 16 * n - Unsigned(h[6..8])
  {
    var log := FloorLog2(n);
    FloorLog2Correct(n);
    var searchRange := ShiftLeft(1, log + 4);
    HeaderSlots(trueType, n, log, searchRange);
    DirectoryHeader(n, log);
    HeaderArithmetic(n, log, searchRange);
  }

  /** The five fields of the offset table, each read back as an unsigned 16-bit value. */
  lemma HeaderSlots(trueType: bool, n: int, log: int, searchRange: int)
    requires log == FloorLog2(n) && searchRange == ShiftLeft(1, log + 4)
    ensures var h := FileHeader(trueType, n);
      && h[..4] == VersionBytes(trueType)
      && Unsigned(h[4..6]) == n % TWO_16
      && Unsigned(h[6..8]) == searchRange % TWO_16
      && Unsigned(h[8..10]) == log % TWO_16
      && Unsigned(h[10..12]) == (n * 16 - searchRange) % TWO_16
  {
    HeaderFields(trueType, n, log);
    HeaderParts(FileHeader(trueType, n), VersionBytes(trueType), ShortBytes(n),
      ShortBytes(searchRange), ShortBytes(log), ShortBytes(n * 16 - searchRange));
    ShortBytesValue(n);
    ShortBytesValue(searchRange);
    ShortBytesValue(log);
    ShortBytesValue(n * 16 - searchRange);
  }

  /** The search fields of the offset table fit in 16 bits for fewer than 4096 tables. */
  lemma HeaderArithmetic(n: int, log: int, searchRange: int)
    requires 1 <= n < 0x1000 && IsFloorLog2(n, log) && searchRange == 16 * Pow2(log)
    ensures n % TWO_16 == n && log % TWO_16 == log
    ensures searchRange % TWO_16 == searchRange
    ensures (n * 16 - searchRange) % TWO_16 == 16 * n - searchRange
  {
    var p := Pow2(log);
    assert p <= n by {
      if log == 0 {
        assert Pow2(0) == 1;
      }
    }
    assert n < 2 * p by {
      Pow2Add(log, 1);
      assert Pow2(1) == 2;
    }
    if log >= 15 {
      Pow2Small();
      Pow2Monotone(15, log);
    }
    assert 0 <= log < 15 && 0 < searchRange <= 16 * n && 16 * n < TWO_16;
    SmallMod(n);
    SmallMod(log);
    SmallMod(searchRange);
    SmallMod(16 * n - searchRange);
  }

  /** A value within 0..0xFFFF is its own unsigned 16-bit value. */
  lemma SmallMod(x: int)
    requires 0 <= x < TWO_16
    ensures x % TWO_16 == x
  {
  }

  /** The bodies take exactly the room the layout reserves for them. */
  lemma {:induction false} BodiesLength(es: seq<TableEntry>, font: seq<byte>)
    requires Copyable(es) && Sized(es)
    ensures |Bodies(es, font)| == Span(es)
    decreases |es|
  {
    if es != [] {
      var n := |es| - 1;
      assert Copyable(es[..n]) && Sized(es[..n]);
      BodiesLength(es[..n], font);
      if es[n].needed {
        BodyLength(es[n], font);
      }
    }
  }

  /** The bodies of the first k tables begin the bodies of all of them. */
  lemma {:induction false} BodiesPrefix(es: seq<TableEntry>, font: seq<byte>, k: nat)
    requires Copyable(es) && k <= |es|
    ensures Copyable(es[..k]) && Bodies(es[..k], font) <= Bodies(es, font)
    decreases |es|
  {
    if k < |es| {
      var n := |es| - 1;
      assert Copyable(es[..n]);
      BodiesPrefix(es[..n], font, k);
      assert es[..n][..k] == es[..k];
    } else {
      assert es[..k] == es;
    }
  }

  /** Table j contributes its body, if needed, right after the bodies of the tables before it. */
  lemma BodiesAt(es: seq<TableEntry>, font: seq<byte>, j: nat)
    requires Copyable(es) && j < |es|
    ensures Copyable(es[..j]) && Copyable(es[..j + 1])
    ensures Bodies(es[..j + 1], font) == Bodies(es[..j], font) + (if es[j].needed then Body(es[j], font) else [])
  {
    assert es[..j + 1][..j] == es[..j];
  }

  /** The records of the first k tables begin the directory. */
  lemma {:induction false} DirectoryPrefix(es: seq<TableEntry>, base: int, k: nat)
    requires k <= |es|
    ensures Directory(es[..k], base) <= Directory(es, base)
    decreases |es|
  {
    if k < |es| {
      var n := |es| - 1;
      DirectoryPrefix(es[..n], base, k);
      assert es[..n][..k] == es[..k];
    } else {
      assert es[..k] == es;
    }
  }

  /** Table j contributes its record, if needed, right after the records of the tables before it. */
  lemma DirectoryAt(es: seq<TableEntry>, base: int, j: nat)
    requires j < |es|
    ensures Directory(es[..j + 1], base) == Directory(es[..j], base) + (if es[j].needed then DirEntry(es[j], base) else [])
  {
    assert es[..j + 1][..j] == es[..j];
  }

  /** Where table j's directory record sits in the output. */
  function RecordOffset(es: seq<TableEntry>, j: nat): int
    requires j <= |es|
  {
    12 + 16 * NeededCount(es[..j])
  }

  /** Where table j's body sits in the output. */
  function BodyOffset(es: seq<TableEntry>, j: nat): int
    requires j < |es|
  {
    BaseOffset(es) + es[j].newRelativeOffset
  }

  /** Within the directory, the record of needed table j follows the records of the needed tables before it. */
  lemma RecordInDirectory(es: seq<TableEntry>, base: int, j: nat)
    requires j < |es| && es[j].needed
    ensures var x := 16 * NeededCount(es[..j]);
      x + 16 <= |Directory(es, base)| && Directory(es, base)[x..x + 16] == DirEntry(es[j], base)
  {
    var x := 16 * NeededCount(es[..j]);
    DirectoryPrefix(es, base, j + 1);
    DirectoryAt(es, base, j);
    var before, entry := Directory(es[..j], base), DirEntry(es[j], base);
    assert |before| == x && |entry| == 16;
    SliceRight(before, entry, 0, 16);
    assert entry[0..16] == entry;
    SliceOfPrefix(before + entry, Directory(es, base), x, x + 16);
  }

  /** A slice of the middle part of a three-part concatenation. */
  lemma SliceMiddle<T>(a: seq<T>, b: seq<T>, c: seq<T>, i: int, j: int)
    requires 0 <= i <= j <= |b|
    ensures (a + b + c)[|a| + i..|a| + j] == b[i..j]
  {
    assert (a + b + c)[|a| + i..|a| + j] == (a + b)[|a| + i..|a| + j];
  }

  /** The record of needed table j lies inside the directory. */
  lemma RecordPlaced(es: seq<TableEntry>, trueType: bool, font: seq<byte>, j: nat)
    requires Copyable(es) && j < |es| && es[j].needed
    ensures var file := Assembled(es, trueType, font);
      var rec := RecordOffset(es, j);
      && rec + 16 <= BaseOffset(es)
      && file[rec..rec + 16] == DirEntry(es[j], BaseOffset(es))
  {
    var base := BaseOffset(es);
    var header, dir, bodies := FileHeader(trueType, NeededCount(es)), Directory(es, base), Bodies(es, font);
    var x := 16 * NeededCount(es[..j]);
    RecordInDirectory(es, base, j);
    SliceMiddle(header, dir, bodies, x, x + 16);
    assert Assembled(es, trueType, font) == header + dir + bodies;
  }

  /** The bodies before needed table j fill exactly its relative offset, and its body follows them. */
  lemma BodyStart(es: seq<TableEntry>, font: seq<byte>, j: nat)
    requires Copyable(es) && Sized(es) && LaidOut(es) && j < |es| && es[j].needed
    ensures Copyable(es[..j]) && Copyable(es[..j + 1])
    ensures es[j].newRelativeOffset == |Bodies(es[..j], font)|
    ensures Bodies(es[..j + 1], font) == Bodies(es[..j], font) + Body(es[j], font)
    ensures Bodies(es[..j + 1], font) <= Bodies(es, font)
  {
    BodiesPrefix(es, font, j + 1);
    BodiesAt(es, font, j);
    assert Sized(es[..j]);
    BodiesLength(es[..j], font);
  }

  /** The body of needed table j lies where its relative offset says, once the tables are laid out. */
  lemma BodyPlaced(es: seq<TableEntry>, trueType: bool, font: seq<byte>, j: nat)
    requires Copyable(es) && Sized(es) && LaidOut(es) && j < |es| && es[j].needed
    ensures var file := Assembled(es, trueType, font);
      var at := BodyOffset(es, j);
      var body := Body(es[j], font);
      && BaseOffset(es) <= at && at + |body| <= |file|
      && file[at..at + |body|] == body
  {
    var base := BaseOffset(es);
    BodyStart(es, font, j);
    var front := FileHeader(trueType, NeededCount(es)) + Directory(es, base);
    assert |front| == base;
    assert Assembled(es, trueType, font) == front + Bodies(es, font);
    PieceInFile(front, Bodies(es, font), Bodies(es[..j], font), Body(es[j], font), Bodies(es[..j + 1], font));
  }

  /** A piece that follows a known prefix of the bodies sits right after it in the file. */
  lemma PieceInFile(front: seq<byte>, bodies: seq<byte>, before: seq<byte>, piece: seq<byte>, upTo: seq<byte>)
    requires upTo == before + piece && upTo <= bodies
    ensures |front| + |before| + |piece| <= |front + bodies|
    ensures (front + bodies)[|front| + |before|..|front| + |before| + |piece|] == piece
  {
    var x := |before|;
    assert upTo[x..x + |piece|] == piece;
    SliceOfPrefix(upTo, bodies, x, x + |piece|);
    SliceRight(front, bodies, x, x + |piece|);
  }

  /**
   * The directory record of needed table j reads back as its tag, its
   * checksum, the offset of its body in the output and its length; for a
   * rebuilt table the checksum is that of its new content.
   */
  lemma RecordFields(es: seq<TableEntry>, trueType: bool, font: seq<byte>, j: nat)
    requires Copyable(es) && j < |es| && es[j].needed
    ensures var file := Assembled(es, trueType, font);
      var rec := RecordOffset(es, j);
      && rec + 16 <= |file|
      && GetInt(file, rec) == ToInt32(es[j].tag)
      && GetInt(file, rec + 8) == ToInt32(BodyOffset(es, j))
      && GetInt(file, rec + 12) == ToInt32(LaidLength(es[j]))
      && (es[j].newContent.Some? ==> GetInt(file, rec + 4) == TableCheckSum(es[j].newContent.value))
  {
    var file := Assembled(es, trueType, font);
    var rec := RecordOffset(es, j);
    RecordPlaced(es, trueType, font, j);
    EntryRead(file, rec, es[j], BaseOffset(es));
    assert BaseOffset(es) + es[j].newRelativeOffset == BodyOffset(es, j);
  }

  /** A directory record stored at rec reads back as the entry's tag, checksum, offset and length. */
  lemma EntryRead(buf: seq<byte>, rec: int, e: TableEntry, base: int)
    requires 0 <= rec && rec + 16 <= |buf| && buf[rec..rec + 16] == DirEntry(e, base)
    ensures GetInt(buf, rec) == ToInt32(e.tag)
    ensures GetInt(buf, rec + 8) == ToInt32(base + e.newRelativeOffset)
    ensures GetInt(buf, rec + 12) == ToInt32(LaidLength(e))
    ensures e.newContent.Some? ==> GetInt(buf, rec + 4) == TableCheckSum(e.newContent.value)
  {
    var checkSum := if e.newContent.Some? then TableCheckSum(e.newContent.value) else e.checkSum;
    RecordRead(buf, rec, e.tag, checkSum, e.newRelativeOffset + base, LaidLength(e));
    if e.newContent.Some? {
      ToInt32Unique(checkSum, checkSum);
    }
  }

  /** The four 32-bit fields of a 16-byte record stored at rec read back as stored. */
  lemma RecordRead(buf: seq<byte>, rec: int, a: int, b: int, c: int, d: int)
    requires 0 <= rec && rec + 16 <= |buf|
    requires buf[rec..rec + 16] == IntBytes(a) + IntBytes(b) + IntBytes(c) + IntBytes(d)
    ensures GetInt(buf, rec) == ToInt32(a) && GetInt(buf, rec + 4) == ToInt32(b)
    ensures GetInt(buf, rec + 8) == ToInt32(c) && GetInt(buf, rec + 12) == ToInt32(d)
  {
    Quarters(buf[rec..rec + 16], IntBytes(a), IntBytes(b), IntBytes(c), IntBytes(d));
    SliceOfSlice(buf, rec, rec + 16, 0, 4);
    SliceOfSlice(buf, rec, rec + 16, 4, 8);
    SliceOfSlice(buf, rec, rec + 16, 8, 12);
    SliceOfSlice(buf, rec, rec + 16, 12, 16);
    GetIntAt(buf, rec, a);
    GetIntAt(buf, rec + 4, b);
    GetIntAt(buf, rec + 8, c);
    GetIntAt(buf, rec + 12, d);
  }

  /** Padding new content with zeros to a word boundary does not change its checksum. */
  lemma BodyCheckSum(c: seq<byte>)
    ensures CheckSum(c + Zeros(PadCount(|c|))) == CheckSum(c)
  {
    var body := c + Zeros(PadCount(|c|));
    assert PadTo4(c) == body;
    assert PadTo4(body) == body + [];
    assert body + [] == body;
  }

  /**
   * The headline of WriteTables: when the tables are laid out and the new
   * 'head' table has a zero checkSumAdjustment (bytes 8 to 11), the output
   * is produced and its checksum, as a whole file, is 0xB1B0AFBA.
   */
  lemma WrittenChecksum(es: seq<TableEntry>, trueType: bool, font: seq<byte>, h: nat)
    requires Copyable(es) && Sized(es) && LaidOut(es)
    requires FindTag(es, HEAD) == Some(h) && es[h].needed
    requires es[h].newContent.Some? && |es[h].newContent.value| >= 12
    requires es[h].newContent.value[8..12] == [0, 0, 0, 0]
    ensures Written(es, trueType, font).Success?
    ensures CheckSum(Written(es, trueType, font).value) == CHECKSUM_MAGIC
  {
    var file := Assembled(es, trueType, font);
    var index := AdjustmentIndex(es, h);
    AdjustmentWordZero(es, trueType, font, h);
    AdjustedChecksum(file, index);
    assert Written(es, trueType, font) == Adjusted(file, index);
  }

  /** In the assembled file, the word checkSumAdjustment is stored over is aligned and still zero. */
  lemma AdjustmentWordZero(es: seq<TableEntry>, trueType: bool, font: seq<byte>, h: nat)
    requires Copyable(es) && Sized(es) && LaidOut(es)
    requires h < |es| && es[h].needed
    requires es[h].newContent.Some? && |es[h].newContent.value| >= 12
    requires es[h].newContent.value[8..12] == [0, 0, 0, 0]
    ensures var file, index := Assembled(es, trueType, font), AdjustmentIndex(es, h);
      0 <= index && index % 4 == 0 && index + 4 <= |file| && file[index..index + 4] == [0, 0, 0, 0]
  {
    var file := Assembled(es, trueType, font);
    var c := es[h].newContent.value;
    var at := BodyOffset(es, h);
    BodyPlaced(es, trueType, font, h);
    ZeroWordInBody(file, at, c, Body(es[h], font));
    SpanAligned(es, h);
    AdjustmentAligned(NeededCount(es), es[h].newRelativeOffset);
  }

  /** Storing the adjustment over an aligned zero word gives a file whose checksum is the magic number. */
  lemma AdjustedChecksum(file: seq<byte>, index: int)
    requires 0 <= index && index % 4 == 0 && index + 4 <= |file|
    requires file[index..index + 4] == [0, 0, 0, 0]
    ensures Adjusted(file, index).Success?
    ensures CheckSum(Adjusted(file, index).value) == CHECKSUM_MAGIC
  {
    ChecksumAdjustment(file, index, TableCheckSum(file));
  }

  /** Bytes 8 to 11 of new content, stored with its padding at at, lie at at + 8. */
  lemma ZeroWordInBody(file: seq<byte>, at: int, c: seq<byte>, body: seq<byte>)
    requires body == c + Zeros(PadCount(|c|)) && |c| >= 12 && c[8..12] == [0, 0, 0, 0]
    requires 0 <= at && at + |body| <= |file| && file[at..at + |body|] == body
    ensures file[at + 8..at + 12] == [0, 0, 0, 0]
  {
    assert body[8..12] == c[8..12];
    SliceOfSlice(file, at, at + |body|, 8, 12);
  }

  /** The adjustment index, 8 bytes into a body placed at a multiple of 4 after the directory, is a multiple of 4. */
  lemma AdjustmentAligned(count: int, offset: int)
    requires offset % 4 == 0
    ensures (offset + (count * 16 + 12) + 8) % 4 == 0
  {
    assert offset == 4 * (offset / 4);
    assert offset + (count * 16 + 12) + 8 == 4 * (offset / 4 + count * 4 + 5);
  }
}
