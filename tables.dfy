/**
 * The table rebuilders of SweepTables that patch a copy of the original
 * table or write a new one from the subset's state: BuildMaxP, BuildHHea,
 * BuildHead, BuildHMtx and BuildOS2 (OpenType specification, tables
 * 'maxp', 'hhea', 'head', 'hmtx' and 'OS/2').
 */
module Tables {
  import opened BigEndian
  import opened Outcome
  import opened Records
  import opened Reindex
  import CMapDecode
  import Loca

  /** The message of the OverflowException of `new byte[n]` for a negative n. */
  const OVERFLOW: string := "Arithmetic operation resulted in an overflow."
  /** The message of Stream.Read given a negative count. */
  const ARGUMENT_OUT_OF_RANGE: string := "Non-negative number required."
  /** `(66 * 365 + 16) * 24 * 60 * 60`, the offset the source adds to its clock when it dates 'head'. */
  const BASE_TIME: int := (66 * 365 + 16) * 24 * 60 * 60

  // ---------------------------------------------------------------- copies of the original table

  /** `new byte[length]`, a seek to offset and a read of length bytes: the table as a fresh buffer. */
  function Fresh(font: seq<byte>, offset: int, length: int): (r: Result<seq<byte>>)
    ensures r.Success? <==> length >= 0 && offset >= 0
    ensures r.Success? ==> r.value == Loca.TableBytes(font, offset, length)
  {
    if length < 0 then Failure(OVERFLOW)
    else if offset < 0 then Failure(SEEK_ERROR)
    else Success(Loca.TableBytes(font, offset, length))
  }

  /** b with s written over it from position at on: everything else is b's. */
  function Overwrite(b: seq<byte>, at: nat, s: seq<byte>): (r: seq<byte>)
    requires at + |s| <= |b|
    ensures |r| == |b| && r[at..at + |s|] == s
    ensures r[..at] == b[..at] && r[at + |s|..] == b[at + |s|..]
  {
    b[..at] + s + b[at + |s|..]
  }

  /** A buffer that agrees with s on the overwritten span and with b elsewhere is the overwrite. */
  lemma OverwriteAt(b: seq<byte>, r: seq<byte>, at: nat, s: seq<byte>)
    requires at + |s| <= |b| == |r|
    requires forall i | 0 <= i < |b| :: r[i] == if at <= i < at + |s| then s[i - at] else b[i]
    ensures r == Overwrite(b, at, s)
  {
  }

  /** A fresh copy of the table, as the method bodies below make it. */
  method ReadFresh(font: seq<byte>, offset: int, length: int) returns (r: Result<array<byte>>)
    ensures r.Success? <==> Fresh(font, offset, length).Success?
    ensures r.Failure? ==> r.error == Fresh(font, offset, length).error
    ensures r.Success? ==> fresh(r.value) && r.value[..] == Fresh(font, offset, length).value
  {
    if length < 0 {
      return Failure(OVERFLOW);
    }
    if offset < 0 {
      return Failure(SEEK_ERROR);
    }
    var buf := new byte[length](i => CMapDecode.ByteOr0(font, offset + i));
    return Success(buf);
  }

  // ---------------------------------------------------------------- maxp

  /** BuildMaxP as a function: the original 'maxp' with numGlyphs (offset 4) set to the new glyph count. */
  function MaxPTable(font: seq<byte>, offset: int, length: int, newGlyphCount: int): (r: Result<seq<byte>>)
    ensures r.Success? <==> offset >= 0 && length >= 6
    ensures r.Success? ==> Overwrite(Fresh(font, offset, length).value, 4, ShortBytes(newGlyphCount)) == r.value
  {
    var read := Fresh(font, offset, length);
    if read.Failure? then read
    else if length < 6 then Failure(CMapDecode.ARRAY_INDEX_ERROR)
    else Success(Overwrite(read.value, 4, ShortBytes(newGlyphCount)))
  }

  /** BuildMaxP: copies 'maxp' and stores NewGlyphCount in numGlyphs, high byte first. */
  method BuildMaxP(font: seq<byte>, offset: int, length: int, newGlyphCount: int) returns (r: Result<seq<byte>>)
    ensures r == MaxPTable(font, offset, length, newGlyphCount)
  {
    var read := ReadFresh(font, offset, length);
    if read.Failure? {
      return Failure(read.error);
    }
    var buf := read.value;
    if buf.Length < 6 {
      return Failure(CMapDecode.ARRAY_INDEX_ERROR);
    }
    ghost var copy := buf[..];
    buf[4] := ByteAt(newGlyphCount, 1);
    buf[5] := ByteAt(newGlyphCount, 0);
    OverwriteAt(copy, buf[..], 4, ShortBytes(newGlyphCount));
    return Success(buf[..]);
  }

  /** The reader of the rebuilt font finds the new glyph count (modulo 2^16) where it looks for numGlyphs. */
  lemma MaxPReadBack(font: seq<byte>, offset: int, length: int, newGlyphCount: int)
    requires MaxPTable(font, offset, length, newGlyphCount).Success?
    ensures Loca.NumGlyphs(MaxPTable(font, offset, length, newGlyphCount).value, 0) == newGlyphCount % TWO_16
  {
    var t := MaxPTable(font, offset, length, newGlyphCount).value;
    ShortReadBack(t, 4, newGlyphCount);
  }

  /** Two bytes ShortBytes(n) at p read back as n modulo 2^16. */
  lemma ShortReadBack(t: seq<byte>, p: nat, n: int)
    requires p + 2 <= |t| && t[p..p + 2] == ShortBytes(n)
    ensures CMapDecode.U16(CMapDecode.ShortAt(t, p)) == n % TWO_16
  {
    CMapDecode.ShortAtInRange(t, p);
    GetShortOfShortBytes([], n);
    assert [] + ShortBytes(n) == ShortBytes(n);
    assert t[p..p + 2][0..2] == ShortBytes(n);
    ToInt16Congruent(n);
  }

  // ---------------------------------------------------------------- hhea

  /** BuildHHea as a function: the original 'hhea' with numberOfHMetrics (offset 34) set. */
  function HHeaTable(font: seq<byte>, offset: int, length: int, newVariableWidthCount: int): (r: Result<seq<byte>>)
    ensures r.Success? <==> offset >= 0 && length >= 36
    ensures r.Success? ==> Overwrite(Fresh(font, offset, length).value, 34, ShortBytes(newVariableWidthCount)) == r.value
  {
    var read := Fresh(font, offset, length);
    if read.Failure? then read
    else if length < 36 then Failure(CMapDecode.ARRAY_INDEX_ERROR)
    else Success(Overwrite(read.value, 34, ShortBytes(newVariableWidthCount)))
  }

  /** BuildHHea: copies 'hhea' and stores NewVariableWidthCount in numberOfHMetrics. */
  method BuildHHea(font: seq<byte>, offset: int, length: int, newVariableWidthCount: int) returns (r: Result<seq<byte>>)
    ensures r == HHeaTable(font, offset, length, newVariableWidthCount)
  {
    var read := ReadFresh(font, offset, length);
    if read.Failure? {
      return Failure(read.error);
    }
    var buf := read.value;
    if buf.Length < 36 {
      return Failure(CMapDecode.ARRAY_INDEX_ERROR);
    }
    ghost var copy := buf[..];
    buf[34] := ByteAt(newVariableWidthCount, 1);
    buf[35] := ByteAt(newVariableWidthCount, 0);
    OverwriteAt(copy, buf[..], 34, ShortBytes(newVariableWidthCount));
    return Success(buf[..]);
  }

  /** numberOfHMetrics of the rebuilt 'hhea' reads back as the variable-width count modulo 2^16. */
  lemma HHeaReadBack(font: seq<byte>, offset: int, length: int, newVariableWidthCount: int)
    requires HHeaTable(font, offset, length, newVariableWidthCount).Success?
    ensures var t := HHeaTable(font, offset, length, newVariableWidthCount).value;
      CMapDecode.U16(CMapDecode.ShortAt(t, 34)) == newVariableWidthCount % TWO_16
  {
    var t := HHeaTable(font, offset, length, newVariableWidthCount).value;
    ShortReadBack(t, 34, newVariableWidthCount);
  }

  // ---------------------------------------------------------------- head

  /** The modification date BuildHead stores: the clock's ticks over 1000 plus BASE_TIME. */
  function Modified(ticks: int): int
  {
    ticks / 1000 + BASE_TIME
  }

  /**
   * BuildHead as a function: the original 'head' with checkSumAdjustment
   * (bytes 8..11) zeroed, the modified date (bytes 28..35) set from the
   * clock, and indexToLocFormat (bytes 50..51) set to 0 for short 'loca'
   * offsets and 1 for long ones.
   */
  function HeadTable(font: seq<byte>, offset: int, length: int, shortOffsets: bool, ticks: int): (r: Result<seq<byte>>)
    ensures r.Success? <==> offset >= 0 && length >= 52
  {
    var read := Fresh(font, offset, length);
    if read.Failure? then read
    else if length < 52 then Failure(CMapDecode.ARRAY_INDEX_ERROR)
    else Success(HeadPatch(read.value, shortOffsets, ticks))
  }

  /** The three changes BuildHead makes to the copy of 'head'. */
  function HeadPatch(b: seq<byte>, shortOffsets: bool, ticks: int): (r: seq<byte>)
    requires |b| >= 52
    ensures |r| == |b|
  {
    var zeroed := Overwrite(b, 8, [0, 0, 0, 0]);
    var dated := Overwrite(zeroed, 28, LongBytes(Modified(ticks)));
    Overwrite(dated, 50, [0, if shortOffsets then 0 else 1])
  }

  /** BuildHead: copies 'head', zeroes checkSumAdjustment, dates it and records the 'loca' format. */
  method BuildHead(font: seq<byte>, offset: int, length: int, shortOffsets: bool, ticks: int) returns (r: Result<seq<byte>>)
    requires 0 <= ticks < 0x8000_0000_0000_0000
    ensures r == HeadTable(font, offset, length, shortOffsets, ticks)
  {
    var read := ReadFresh(font, offset, length);
    if read.Failure? {
      return Failure(read.error);
    }
    var buf := read.value;
    if buf.Length < 52 {
      return Failure(CMapDecode.ARRAY_INDEX_ERROR);
    }
    ghost var copy := buf[..];
    ZeroChecksum(buf);
    ghost var zeroed := buf[..];
    StuffLong(buf, 28, ticks / 1000 + BASE_TIME);
    assert buf[..] == Overwrite(zeroed, 28, LongBytes(Modified(ticks)));
    SetLocFormat(buf, shortOffsets);
    return Success(buf[..]);
  }

  /** The four stores that zero checkSumAdjustment. */
  method ZeroChecksum(buf: array<byte>)
    requires buf.Length >= 52
    modifies buf
    ensures buf[..] == Overwrite(old(buf[..]), 8, [0, 0, 0, 0])
  {
    ghost var copy := buf[..];
    buf[8] := 0;
    buf[9] := 0;
    buf[10] := 0;
    buf[11] := 0;
    OverwriteAt(copy, buf[..], 8, [0, 0, 0, 0]);
  }

  /** The two stores that record the 'loca' format: 0 for short offsets, 1 for long. */
  method SetLocFormat(buf: array<byte>, shortOffsets: bool)
    requires buf.Length >= 52
    modifies buf
    ensures buf[..] == Overwrite(old(buf[..]), 50, [0, if shortOffsets then 0 else 1])
  {
    ghost var copy := buf[..];
    buf[50] := 0;
    buf[51] := if shortOffsets then 0 else 1;
    OverwriteAt(copy, buf[..], 50, [0, if shortOffsets then 0 else 1]);
  }

  /**
   * The patched 'head' has a zero checkSumAdjustment, which the writer
   * then fills in; its indexToLocFormat reads back as 0 exactly for short
   * 'loca' offsets; its modified date is the clock's value.
   */
  lemma HeadFacts(b: seq<byte>, shortOffsets: bool, ticks: int)
    requires |b| >= 52
    ensures var t := HeadPatch(b, shortOffsets, ticks);
      t[8..12] == [0, 0, 0, 0] &&
      (Loca.IndexToLocFormat(t, 0) == 0 <==> shortOffsets) &&
      t[28..36] == LongBytes(Modified(ticks))
  {
    var t := HeadPatch(b, shortOffsets, ticks);
    var zeroed := Overwrite(b, 8, [0, 0, 0, 0]);
    var dated := Overwrite(zeroed, 28, LongBytes(Modified(ticks)));
    Untouched(dated, 50, [0, if shortOffsets then 0 else 1], 8, 12);
    Untouched(zeroed, 28, LongBytes(Modified(ticks)), 8, 12);
    Untouched(dated, 50, [0, if shortOffsets then 0 else 1], 28, 36);
    LocFormatReads(t, if shortOffsets then 0 else 1);
  }

  /** Bytes [0, v] at offset 50 read back as the indexToLocFormat v. */
  lemma LocFormatReads(t: seq<byte>, v: byte)
    requires |t| >= 52 && t[50..52] == [0, v]
    ensures Loca.IndexToLocFormat(t, 0) == v as int
  {
    assert t[50] == t[50..52][0] && t[51] == t[50..52][1];
  }

  /** An overwrite leaves a span outside it alone. */
  lemma Untouched(b: seq<byte>, at: nat, s: seq<byte>, i: nat, j: nat)
    requires at + |s| <= |b| && i <= j <= |b| && (j <= at || at + |s| <= i)
    ensures Overwrite(b, at, s)[i..j] == b[i..j]
  {
    var r := Overwrite(b, at, s);
    forall k | i <= k < j
      ensures r[k] == b[k]
    {
      if k < at {
        assert r[k] == r[..at][k];
      } else {
        assert r[k] == r[at + |s|..][k - at - |s|];
      }
    }
  }

  // ---------------------------------------------------------------- hmtx

  /** The 'hmtx' record of one glyph: nothing unless needed; the advance only within the first numberOfHMetrics. */
  function Metric(g: GlyphData, newVariableWidthCount: int): (r: seq<byte>)
    ensures |r| == if !g.needed then 0 else if g.newIndex < newVariableWidthCount then 4 else 2
  {
    if !g.needed then []
    else (if g.newIndex < newVariableWidthCount then ShortBytes(g.advance) else []) + ShortBytes(g.lsb)
  }

  /** The 'hmtx' table BuildHMtx writes: the records of the glyphs in order. */
  function HMtx(gs: seq<GlyphData>, newVariableWidthCount: int): seq<byte>
  {
    if gs == [] then [] else HMtx(gs[..|gs| - 1], newVariableWidthCount) + Metric(gs[|gs| - 1], newVariableWidthCount)
  }

  /** BuildHMtx: an advance and a left side bearing for each needed glyph, the advance only for the first NewVariableWidthCount. */
  method BuildHMtx(glyphs: seq<GlyphData>, newVariableWidthCount: int) returns (r: seq<byte>)
    ensures r == HMtx(glyphs, newVariableWidthCount)
  {
    var out := new ByteStream();
    var i := 0;
    while i < |glyphs|
      invariant 0 <= i <= |glyphs|
      invariant out.bytes == HMtx(glyphs[..i], newVariableWidthCount)
    {
      HMtxStep(glyphs, i, newVariableWidthCount);
      ghost var before := out.bytes;
      var glyph := glyphs[i];
      if glyph.needed {
        if glyph.newIndex < newVariableWidthCount {
          out.WriteShort(glyph.advance);
        }
        out.WriteShort(glyph.lsb);
      }
      assert out.bytes == before + Metric(glyph, newVariableWidthCount);
      i := i + 1;
    }
    assert glyphs[..i] == glyphs;
    return out.bytes;
  }

  /** One more glyph appends its record. */
  lemma HMtxStep(gs: seq<GlyphData>, i: nat, v: int)
    requires i < |gs|
    ensures HMtx(gs[..i + 1], v) == HMtx(gs[..i], v) + Metric(gs[i], v)
  {
    assert gs[..i + 1][..i] == gs[..i];
  }

  /** The smaller of two numbers. */
  function Min(a: int, b: int): int
  {
    if a < b then a else b
  }

  /**
   * After ReindexGlyphs, the first n glyphs give the first min(v, k) kept
   * glyphs 4 bytes and the other kept ones 2, k being the number kept.
   */
  lemma {:induction false} HMtxPrefix(gs: seq<GlyphData>, v: int, n: nat)
    requires n <= |gs| && v >= 0
    ensures |HMtx(Reindexed(gs)[..n], v)| == 2 * Rank(gs, n) + 2 * Min(v, Rank(gs, n))
  {
    if n > 0 {
      var r := Reindexed(gs);
      assert r[..n][..n - 1] == r[..n - 1];
      HMtxPrefix(gs, v, n - 1);
      ReindexStep(gs, n - 1, 0);
    }
  }

  /**
   * The size of the rebuilt 'hmtx' is what the format prescribes: 4 bytes
   * for each of the first numberOfHMetrics glyphs and 2 for each later one,
   * numberOfHMetrics being the variable-width count (at most the number of
   * glyphs kept, as ReindexGlyphs computes it).
   */
  lemma HMtxSize(gs: seq<GlyphData>, v: int)
    requires 0 <= v <= NewGlyphCount(gs)
    ensures |HMtx(Reindexed(gs), v)| == 4 * v + 2 * (NewGlyphCount(gs) - v)
  {
    HMtxPrefix(gs, v, |gs|);
    assert Reindexed(gs)[..|gs|] == Reindexed(gs);
  }

  // ---------------------------------------------------------------- OS/2

  /** The fields of the OS/2 table the font read and writes back unchanged. */
  datatype Os2 = Os2(
    version: int,
    weight: int, width: int, fsType: int,
    subscriptXSize: int, subscriptYSize: int, subscriptXOffset: int, subscriptYOffset: int,
    superscriptXSize: int, superscriptYSize: int, superscriptXOffset: int, superscriptYOffset: int,
    strikeoutSize: int, strikeoutPosition: int, familyClass: int,
    panose: seq<byte>,
    charRange: int, unicodeRange1: int, unicodeRange2: int, unicodeRange3: int, unicodeRange4: int,
    vendorId: seq<char>,
    fsSelection: int,
    typoAscender: int, typoDescender: int, typoLineGap: int, winAscent: int, winDescent: int,
    codePageRange1: int, codePageRange2: int,
    height: int, capHeight: int, defaultChar: int, breakChar: int, maxContext: int)

  /** The message of Stream.Write given fewer bytes than asked for. */
  const WRITE_ERROR: string := "Offset and length were out of bounds for the array or count is greater than the number of elements from index to the end of the source collection."
  /** The message of Encoding.GetBytes asked for more characters than the string holds. */
  const CHARS_ERROR: string := "Index and count must refer to a location within the string."

  /** ISO-8859-1 encoding of one character code: itself below 256, '?' otherwise. */
  function Latin1(c: int): byte
  {
    if 0 <= c < 256 then c else '?' as int
  }

  /** Shorts written one after the other, as IOUtils.WriteShort writes them. */
  function Shorts(ns: seq<int>): (r: seq<byte>)
    ensures |r| == 2 * |ns|
  {
    if ns == [] then [] else Shorts(ns[..|ns| - 1]) + ShortBytes(ns[|ns| - 1])
  }

  /** A run of WriteShort calls. */
  method WriteShorts(out: ByteStream, ns: seq<int>)
    modifies out
    ensures out.bytes == old(out.bytes) + Shorts(ns)
  {
    var i := 0;
    while i < |ns|
      invariant 0 <= i <= |ns|
      invariant out.bytes == old(out.bytes) + Shorts(ns[..i])
    {
      assert ns[..i + 1][..i] == ns[..i];
      out.WriteShort(ns[i]);
      i := i + 1;
    }
    assert ns[..i] == ns;
  }

  /** The first sixteen fields, all shorts: version to familyClass (32 bytes). */
  function Os2Head(t: Os2, avgWidth: int): seq<int>
  {
    [t.version, avgWidth, t.weight, t.width, t.fsType,
     t.subscriptXSize, t.subscriptYSize, t.subscriptXOffset, t.subscriptYOffset,
     t.superscriptXSize, t.superscriptYSize, t.superscriptXOffset, t.superscriptYOffset,
     t.strikeoutSize, t.strikeoutPosition, t.familyClass]
  }

  /** The character ranges: one int in version 0, the four Unicode ranges otherwise. */
  function Os2Ranges(t: Os2): (r: seq<byte>)
    ensures |r| == if t.version == 0 then 4 else 16
  {
    if t.version == 0 then IntBytes(t.charRange)
    else IntBytes(t.unicodeRange1) + IntBytes(t.unicodeRange2) + IntBytes(t.unicodeRange3) + IntBytes(t.unicodeRange4)
  }

  /** fsSelection to winDescent (16 bytes), with the new first and last character indices. */
  function Os2Metrics(t: Os2, first: int, last: int): seq<int>
  {
    [t.fsSelection, first, last, t.typoAscender, t.typoDescender, t.typoLineGap, t.winAscent, t.winDescent]
  }

  /** The fields of version 2 and later (10 bytes). */
  function Os2Tail(t: Os2): seq<int>
  {
    [t.height, t.capHeight, t.defaultChar, t.breakChar, t.maxContext]
  }

  /** The vendor id as written: its first four characters in ISO-8859-1. */
  function VendorBytes(t: Os2): seq<byte>
    requires |t.vendorId| >= 4
  {
    [Latin1(t.vendorId[0] as int), Latin1(t.vendorId[1] as int), Latin1(t.vendorId[2] as int), Latin1(t.vendorId[3] as int)]
  }

  /**
   * BuildOS2 as a function: the version 0 fields, the code page ranges
   * from version 1 on and the five version 2 fields from version 2 on;
   * fails when the panose holds fewer than 10 bytes or the vendor id fewer
   * than 4 characters.
   */
  function Os2Table(t: Os2, avgWidth: int, first: int, last: int): (r: Result<seq<byte>>)
    ensures r.Success? <==> |t.panose| >= 10 && |t.vendorId| >= 4
  {
    if |t.panose| < 10 then Failure(WRITE_ERROR)
    else if |t.vendorId| < 4 then Failure(CHARS_ERROR)
    else
      var v0 := Os2Base(t, avgWidth, first, last);
      if t.version == 0 then Success(v0)
      else
        var v1 := v0 + IntBytes(t.codePageRange1) + IntBytes(t.codePageRange2);
        if t.version == 1 then Success(v1) else Success(v1 + Shorts(Os2Tail(t)))
  }

  /** The version 0 fields: the first 66 bytes of every version as written here (78 from version 1 on). */
  function Os2Base(t: Os2, avgWidth: int, first: int, last: int): seq<byte>
    requires |t.panose| >= 10 && |t.vendorId| >= 4
  {
    Shorts(Os2Head(t, avgWidth)) + t.panose[..10] + Os2Ranges(t) + VendorBytes(t) + Shorts(Os2Metrics(t, first, last))
  }

  /**
   * BuildOS2: writes the table field by field; `avgWidth`, `first` and
   * `last` are CalculateAverageWeight, GetNewFirstIndex and GetNewLastIndex.
   */
  method BuildOS2(t: Os2, avgWidth: int, first: int, last: int) returns (r: Result<seq<byte>>)
    ensures r == Os2Table(t, avgWidth, first, last)
  {
    var out := new ByteStream();
    WriteShorts(out, Os2Head(t, avgWidth));
    assert out.bytes == Shorts(Os2Head(t, avgWidth));
    if |t.panose| < 10 {
      return Failure(WRITE_ERROR);
    }
    out.Write(t.panose[..10]);
    ghost var beforeRanges := out.bytes;
    if t.version == 0 {
      out.WriteInt(t.charRange);
    } else {
      out.WriteInt(t.unicodeRange1);
      out.WriteInt(t.unicodeRange2);
      out.WriteInt(t.unicodeRange3);
      out.WriteInt(t.unicodeRange4);
    }
    assert out.bytes == beforeRanges + Os2Ranges(t);
    if |t.vendorId| < 4 {
      return Failure(CHARS_ERROR);
    }
    out.Write(VendorBytes(t));
    WriteShorts(out, Os2Metrics(t, first, last));
    if t.version == 0 {
      return Success(out.bytes);
    }
    out.WriteInt(t.codePageRange1);
    out.WriteInt(t.codePageRange2);
    if t.version == 1 {
      return Success(out.bytes);
    }
    WriteShorts(out, Os2Tail(t));
    return Success(out.bytes);
  }

  /**
   * The table is as long as its version defines it as written here (66
   * bytes for version 0, 86 for version 1, 96 from version 2 on), and the
   * new first and last character indices sit where the format puts
   * usFirstCharIndex and usLastCharIndex.
   */
  lemma Os2Layout(t: Os2, avgWidth: int, first: int, last: int)
    requires Os2Table(t, avgWidth, first, last).Success?
    ensures var b := Os2Table(t, avgWidth, first, last).value;
      var at := if t.version == 0 then 52 else 64;
      |b| == (if t.version == 0 then 66 else if t.version == 1 then 86 else 96) &&
      b[2..4] == ShortBytes(avgWidth) &&
      b[at..at + 2] == ShortBytes(first) && b[at + 2..at + 4] == ShortBytes(last)
  {
    var v0 := Os2Base(t, avgWidth, first, last);
    Os2BaseLayout(t, avgWidth, first, last);
    var b := Os2Table(t, avgWidth, first, last).value;
    var at := |v0| - 14;
    assert b[..|v0|] == v0;
    assert b[2..4] == v0[2..4];
    assert b[at..at + 2] == v0[at..at + 2];
    assert b[at + 2..at + 4] == v0[at + 2..at + 4];
  }

  /** Where avgWidth and the first and last indices sit in the version 0 fields. */
  lemma Os2BaseLayout(t: Os2, avgWidth: int, first: int, last: int)
    requires |t.panose| >= 10 && |t.vendorId| >= 4
    ensures var v0, at := Os2Base(t, avgWidth, first, last), if t.version == 0 then 52 else 64;
      |v0| == at + 14 && v0[2..4] == ShortBytes(avgWidth) &&
      v0[at..at + 2] == ShortBytes(first) && v0[at + 2..at + 4] == ShortBytes(last)
  {
    var h := Shorts(Os2Head(t, avgWidth));
    var m := Shorts(Os2Metrics(t, first, last));
    var pre := h + t.panose[..10] + Os2Ranges(t) + VendorBytes(t);
    var v0 := pre + m;
    ShortsAt(Os2Head(t, avgWidth), 1);
    ShortsAt(Os2Metrics(t, first, last), 1);
    ShortsAt(Os2Metrics(t, first, last), 2);
    assert v0[2..4] == h[2..4];
    assert v0[|pre| + 2..|pre| + 4] == m[2..4];
    assert v0[|pre| + 4..|pre| + 6] == m[4..6];
  }

  /** Short k of a run of shorts sits at 2k. */
  lemma {:induction false} ShortsAt(ns: seq<int>, k: nat)
    requires k < |ns|
    ensures Shorts(ns)[2 * k..2 * k + 2] == ShortBytes(ns[k])
    decreases |ns|
  {
    var n := |ns| - 1;
    if k < n {
      ShortsAt(ns[..n], k);
      assert Shorts(ns)[..2 * n] == Shorts(ns[..n]);
    }
  }
}
