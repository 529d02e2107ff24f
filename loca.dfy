/**
 * OpenTypeFont.ReadGlyphDataTT and BuildGlyphLocations: the 'loca' table
 * (OpenType specification, 'loca' table).  It holds numGlyphs + 1 offsets
 * into 'glyf': halved offsets as unsigned 16-bit values in the short
 * format (indexToLocFormat 0), plain 32-bit offsets in the long format.
 * Glyph i spans from offset i to offset i + 1.
 */
module Loca {
  import opened BigEndian
  import opened Outcome
  import opened Records
  import opened Sfnt
  import CMapDecode
  import Reindex

  const BAD_SIZE: string := "bad 'loca' table size"
  const NEGATIVE_LENGTH: string := "negative glyph length"

  // ---------------------------------------------------------------- reading

  /**
   * `new byte[length]` filled by a read of length bytes at offset: the
   * font's bytes, and the buffer's zeros past the end of the font.
   */
  function TableBytes(font: seq<byte>, offset: int, length: nat): (r: seq<byte>)
    ensures |r| == length
    ensures forall i | 0 <= i < length :: r[i] == CMapDecode.ByteOr0(font, offset + i)
  {
    seq<byte>(length, i => CMapDecode.ByteOr0(font, offset + i))
  }

  /** ReadGlyphCountTT: numGlyphs, the unsigned short at offset 4 of 'maxp'. */
  function NumGlyphs(font: seq<byte>, maxpOffset: int): nat
  {
    CMapDecode.U16(CMapDecode.ShortAt(font, maxpOffset + 4))
  }

  /** ReadIndexToLocFormatTT: the signed short at offset 50 of 'head'. */
  function IndexToLocFormat(font: seq<byte>, headOffset: int): int
  {
    CMapDecode.ShortAt(font, headOffset + 50)
  }

  /** The table holds entry i (entries are 4 bytes long in the long format, 2 in the short one). */
  predicate HasEntry(buf: seq<byte>, i: nat, long: bool)
  {
    (if long then 4 * i + 4 else 2 * i + 2) <= |buf|
  }

  /** Entry i as the reader takes it: `(GetShort & 0xFFFF) * 2`, or GetInt. */
  function RawEntry(buf: seq<byte>, i: nat, long: bool): int
    requires HasEntry(buf, i, long)
  {
    if long then GetInt(buf, 4 * i) else CMapDecode.U16(GetShort(buf, 2 * i)) * 2
  }

  /** Where glyph i starts in the font: the entry plus glyf's offset, in C# int arithmetic. */
  function GlyphOffset(buf: seq<byte>, i: nat, long: bool, glyfOffset: int): int
    requires HasEntry(buf, i, long)
  {
    ToInt32(RawEntry(buf, i, long) + glyfOffset)
  }

  /** The length of glyph i: the next glyph's offset less its own, in C# int arithmetic. */
  function GlyphLength(buf: seq<byte>, i: nat, long: bool, glyfOffset: int): int
    requires HasEntry(buf, i + 1, long)
  {
    ToInt32(GlyphOffset(buf, i + 1, long, glyfOffset) - GlyphOffset(buf, i, long, glyfOffset))
  }

  /** The offsets of the count + 1 entries, as ReadGlyphDataTT computes them one by one. */
  function LocaOffsets(buf: seq<byte>, count: nat, long: bool, glyfOffset: int): (r: seq<int>)
    requires HasEntry(buf, count, long)
    ensures |r| == count + 1
    ensures forall k | 0 <= k <= count :: r[k] == GlyphOffset(buf, k, long, glyfOffset)
  {
    seq(count + 1, k requires 0 <= k <= count => GlyphOffset(buf, k, long, glyfOffset))
  }

  /** The length of glyph k: the next offset less its own, in C# int arithmetic. */
  function Gap(offsets: seq<int>, k: nat): int
    requires k + 1 < |offsets|
  {
    ToInt32(offsets[k + 1] - offsets[k])
  }

  /** The GlyphData ReadGlyphDataTT makes for glyph k: its offset and length, every other field at its default. */
  function Located(offsets: seq<int>, k: nat): GlyphData
    requires k + 1 < |offsets|
  {
    GlyphData(false, false, offsets[k], Gap(offsets, k), 0, 0, 0, 0)
  }

  /** No glyph among the first n has a negative length. */
  predicate GapsOk(offsets: seq<int>, n: nat)
    requires n < |offsets|
  {
    forall k | 0 <= k < n :: Gap(offsets, k) >= 0
  }

  /** MaxGlyphSize after the first n glyphs, starting from init: the largest of init and their lengths. */
  function MaxGap(offsets: seq<int>, n: nat, init: int): (r: int)
    requires n < |offsets|
    ensures init <= r && forall k | 0 <= k < n :: Gap(offsets, k) <= r
  {
    if n == 0 then init
    else
      var m := MaxGap(offsets, n - 1, init);
      var len := Gap(offsets, n - 1);
      if m < len then len else m
  }

  /** MaxGlyphSize is init or the length of one of the glyphs: the largest, not merely a bound. */
  lemma {:induction false} MaxGapAttained(offsets: seq<int>, n: nat, init: int)
    requires n < |offsets|
    ensures MaxGap(offsets, n, init) == init || exists k | 0 <= k < n :: MaxGap(offsets, n, init) == Gap(offsets, k)
  {
    if n > 0 {
      MaxGapAttained(offsets, n - 1, init);
    }
  }

  /** What ReadGlyphDataTT sets: the glyph list and MaxGlyphSize. */
  datatype LocaRead = LocaRead(glyphs: seq<GlyphData>, maxGlyphSize: int)

  /** The glyphs before the first n: each from its offset to the next. */
  function Done(offsets: seq<int>, n: nat): (r: seq<GlyphData>)
    requires n < |offsets|
    ensures |r| == n && forall k | 0 <= k < n :: r[k] == Located(offsets, k)
  {
    seq(n, k requires 0 <= k < n => Located(offsets, k))
  }

  /** The glyphs of count + 1 offsets: fails when a glyph's length is negative. */
  function DecodeOffsets(offsets: seq<int>, init: int): Result<LocaRead>
    requires |offsets| >= 1
  {
    var count := |offsets| - 1;
    if !GapsOk(offsets, count) then Failure(NEGATIVE_LENGTH)
    else Success(LocaRead(Done(offsets, count), MaxGap(offsets, count, init)))
  }

  /** The glyphs of a 'loca' table of the right size. */
  function DecodeLoca(buf: seq<byte>, count: nat, long: bool, glyfOffset: int, init: int): Result<LocaRead>
    requires HasEntry(buf, count, long)
  {
    DecodeOffsets(LocaOffsets(buf, count, long, glyfOffset), init)
  }

  /** The size the 'loca' table must have: numGlyphs + 1 entries. */
  function LocaSize(glyphCount: nat, long: bool): nat
  {
    if long then 4 * glyphCount + 4 else 2 * glyphCount + 2
  }

  /**
   * ReadGlyphDataTT as a function of the font: numGlyphs from 'maxp', the
   * format from 'head', then the 'loca' entries, each glyph running from
   * its offset to the next one's.
   */
  function ReadLoca(font: seq<byte>, maxpOffset: int, headOffset: int, glyfOffset: int,
                    locaOffset: int, locaLength: int, init: int): Result<LocaRead>
  {
    if maxpOffset + 4 < 0 || headOffset + 50 < 0 then Failure(SEEK_ERROR)
    else
      var count := NumGlyphs(font, maxpOffset);
      var long := IndexToLocFormat(font, headOffset) != 0;
      if locaLength != LocaSize(count, long) then Failure(BAD_SIZE)
      else if locaOffset < 0 then Failure(SEEK_ERROR)
      else DecodeLoca(TableBytes(font, locaOffset, locaLength), count, long, glyfOffset, init)
  }

  /**
   * ReadGlyphDataTT: checks the size of 'loca', then walks its entries,
   * appending a GlyphData at each entry's offset and setting the previous
   * glyph's length to the difference; a negative length fails.  `init` is
   * MaxGlyphSize before the call.
   */
  method ReadGlyphDataTT(font: seq<byte>, maxpOffset: int, headOffset: int, glyfOffset: int,
                         locaOffset: int, locaLength: int, init: int) returns (r: Result<LocaRead>)
    ensures r == ReadLoca(font, maxpOffset, headOffset, glyfOffset, locaOffset, locaLength, init)
  {
    if maxpOffset + 4 < 0 || headOffset + 50 < 0 {
      return Failure(SEEK_ERROR);
    }
    var glyphCount := NumGlyphs(font, maxpOffset);
    var indexToLocFormat := IndexToLocFormat(font, headOffset);
    var long := indexToLocFormat != 0;
    var entrySize := if indexToLocFormat == 0 then 2 else 4;
    assert (glyphCount + 1) * entrySize == LocaSize(glyphCount, long) by {
      if long { assert entrySize == 4; } else { assert entrySize == 2; }
    }
    if locaLength != (glyphCount + 1) * entrySize {
      return Failure(BAD_SIZE);
    }
    if locaOffset < 0 {
      return Failure(SEEK_ERROR);
    }
    var buf := TableBytes(font, locaOffset, locaLength);
    r := WalkLoca(LocaOffsets(buf, glyphCount, long, glyfOffset), init);
  }

  /**
   * The loop of ReadGlyphDataTT over the offsets of the entries: at each
   * entry, the previous glyph's length becomes the difference of the
   * offsets (a negative one fails), and a new glyph is appended at the
   * entry's offset unless it is the last entry.
   */
  method WalkLoca(offsets: seq<int>, init: int) returns (r: Result<LocaRead>)
    requires |offsets| >= 1
    ensures r == DecodeOffsets(offsets, init)
  {
    var glyphCount := |offsets| - 1;
    var data: seq<GlyphData> := [];
    var maxSize := init;
    var i := 0;
    while i <= glyphCount
      invariant 0 <= i <= glyphCount + 1
      invariant i == 0 ==> data == [] && maxSize == init
      invariant 0 < i <= glyphCount ==> data == Done(offsets, i - 1) + [Open(offsets, i - 1)]
      invariant i == glyphCount + 1 ==> data == Done(offsets, glyphCount)
      invariant i > 0 ==> GapsOk(offsets, i - 1) && maxSize == MaxGap(offsets, i - 1, init)
    {
      var glyphOffset := offsets[i];
      if i > 0 {
        var len := ToInt32(glyphOffset - data[i - 1].offset);
        assert len == Gap(offsets, i - 1);
        if len < 0 {
          assert !GapsOk(offsets, glyphCount);
          return Failure(NEGATIVE_LENGTH);
        }
        if maxSize < len {
          maxSize := len;
        }
        data := data[i - 1 := data[i - 1].(length := len)];
        CloseLast(offsets, i);
        GapsStep(offsets, i);
      }
      if i != glyphCount {
        data := data + [Open(offsets, i)];
      }
      i := i + 1;
    }
    return Success(LocaRead(data, maxSize));
  }

  /** Giving the open glyph its length closes it. */
  lemma CloseLast(offsets: seq<int>, i: nat)
    requires 0 < i < |offsets|
    ensures (Done(offsets, i - 1) + [Open(offsets, i - 1)])[i - 1 := Open(offsets, i - 1).(length := Gap(offsets, i - 1))] == Done(offsets, i)
  {
  }

  /** One more non-negative gap extends GapsOk. */
  lemma GapsStep(offsets: seq<int>, i: nat)
    requires 0 < i < |offsets| && GapsOk(offsets, i - 1) && Gap(offsets, i - 1) >= 0
    ensures GapsOk(offsets, i)
  {
  }

  /** Glyph i as appended, before the next entry gives its length. */
  function Open(offsets: seq<int>, i: nat): GlyphData
    requires i < |offsets|
  {
    GlyphData(false, false, offsets[i], 0, 0, 0, 0, 0)
  }

  /** Where the entry plus glyf's offset fits in an int, the glyph's offset is exact. */
  lemma OffsetExact(buf: seq<byte>, k: nat, long: bool, glyfOffset: int)
    requires HasEntry(buf, k, long) && IsInt32(RawEntry(buf, k, long) + glyfOffset)
    ensures GlyphOffset(buf, k, long, glyfOffset) == RawEntry(buf, k, long) + glyfOffset
  {
    ToInt32Unique(RawEntry(buf, k, long) + glyfOffset, RawEntry(buf, k, long) + glyfOffset);
  }

  /**
   * Where both offsets lie between 0 and the largest int, the reader's
   * arithmetic is exact: glyph k has a non-negative length exactly when
   * its entry does not exceed the next one, and the length is then their
   * difference.
   */
  lemma LengthExact(buf: seq<byte>, k: nat, long: bool, glyfOffset: int)
    requires HasEntry(buf, k + 1, long)
    requires 0 <= RawEntry(buf, k, long) + glyfOffset < 0x8000_0000
    requires 0 <= RawEntry(buf, k + 1, long) + glyfOffset < 0x8000_0000
    ensures GlyphLength(buf, k, long, glyfOffset) >= 0 <==> RawEntry(buf, k, long) <= RawEntry(buf, k + 1, long)
    ensures RawEntry(buf, k, long) <= RawEntry(buf, k + 1, long) ==>
      GlyphLength(buf, k, long, glyfOffset) == RawEntry(buf, k + 1, long) - RawEntry(buf, k, long)
  {
    OffsetExact(buf, k, long, glyfOffset);
    OffsetExact(buf, k + 1, long, glyfOffset);
    DifferenceWraps(RawEntry(buf, k + 1, long) - RawEntry(buf, k, long));
  }

  /** A difference of two non-negative ints is its own C# int value. */
  lemma DifferenceWraps(d: int)
    requires -0x8000_0000 < d < 0x8000_0000
    ensures ToInt32(d) == d
  {
    ToInt32Unique(d, d);
  }

  /** The gaps between the offsets are the glyph lengths. */
  lemma GapIsLength(buf: seq<byte>, count: nat, long: bool, glyfOffset: int, k: nat)
    requires HasEntry(buf, count, long) && k < count
    ensures Gap(LocaOffsets(buf, count, long, glyfOffset), k) == GlyphLength(buf, k, long, glyfOffset)
  {
  }

  /**
   * Where every glyph offset lies between 0 and the largest int, a 'loca'
   * table reads without error exactly when its entries never decrease.
   */
  lemma DecodeExact(buf: seq<byte>, count: nat, long: bool, glyfOffset: int, init: int)
    requires HasEntry(buf, count, long)
    requires forall k | 0 <= k <= count :: 0 <= RawEntry(buf, k, long) + glyfOffset < 0x8000_0000
    ensures DecodeLoca(buf, count, long, glyfOffset, init).Success? <==>
      forall k | 0 <= k < count :: RawEntry(buf, k, long) <= RawEntry(buf, k + 1, long)
  {
    var offsets := LocaOffsets(buf, count, long, glyfOffset);
    forall k | 0 <= k < count
      ensures Gap(offsets, k) >= 0 <==> RawEntry(buf, k, long) <= RawEntry(buf, k + 1, long)
    {
      GapIsLength(buf, count, long, glyfOffset, k);
      LengthExact(buf, k, long, glyfOffset);
    }
  }

  // ---------------------------------------------------------------- writing

  /** The lengths of the needed glyphs of gs, in order: the glyphs the subset keeps. */
  function KeptLengths(gs: seq<GlyphData>): (r: seq<int>)
    ensures |r| <= |gs|
  {
    if gs == [] then []
    else KeptLengths(gs[..|gs| - 1]) + (if gs[|gs| - 1].needed then [gs[|gs| - 1].length] else [])
  }

  /** The lengths padded to 4 and summed: where the next glyph starts in the new 'glyf'. */
  function PaddedSum(ls: seq<int>): int
  {
    if ls == [] then 0 else PaddedSum(ls[..|ls| - 1]) + Padded4(ls[|ls| - 1])
  }

  /**
   * One 'loca' entry for a new offset: `offset / 2` as a short, or as an
   * int in the long format, where the format calls for the offset itself
   * (`halveLong` selects the source's halving).
   */
  function LocaEntry(offset: int, asShorts: bool, halveLong: bool): (r: seq<byte>)
    ensures |r| == (if asShorts then 2 else 4)
  {
    if asShorts then ShortBytes(Reindex.TruncDiv(offset, 2))
    else if halveLong then IntBytes(Reindex.TruncDiv(offset, 2))
    else IntBytes(offset)
  }

  /** The entries for glyphs of the given lengths: 0, then each glyph's padded end. */
  function Entries(ls: seq<int>, asShorts: bool, halveLong: bool): (r: seq<byte>)
    ensures |r| == (if asShorts then 2 else 4) * (|ls| + 1)
  {
    if ls == [] then LocaEntry(0, asShorts, halveLong)
    else Entries(ls[..|ls| - 1], asShorts, halveLong) + LocaEntry(PaddedSum(ls), asShorts, halveLong)
  }

  /** The table BuildGlyphLocations writes, as written: the long format halves the offsets too. */
  function Locations(gs: seq<GlyphData>, asShorts: bool): (r: seq<byte>)
    ensures |r| == (if asShorts then 2 else 4) * (|KeptLengths(gs)| + 1)
  {
    Entries(KeptLengths(gs), asShorts, true)
  }

  /** The table with the long format's offsets written whole, as the format defines them. */
  function CorrectedLocations(gs: seq<GlyphData>, asShorts: bool): (r: seq<byte>)
    ensures |r| == (if asShorts then 2 else 4) * (|KeptLengths(gs)| + 1)
  {
    Entries(KeptLengths(gs), asShorts, false)
  }

  /** One more glyph adds its length to the kept lengths exactly when it is needed. */
  lemma KeptStep(gs: seq<GlyphData>, i: nat)
    requires i < |gs|
    ensures KeptLengths(gs[..i + 1]) == KeptLengths(gs[..i]) + (if gs[i].needed then [gs[i].length] else [])
  {
    assert gs[..i + 1][..i] == gs[..i];
  }

  /** One more length adds one entry, at the new padded sum. */
  lemma EntriesStep(ls: seq<int>, len: int, asShorts: bool, halveLong: bool)
    ensures PaddedSum(ls + [len]) == PaddedSum(ls) + Padded4(len)
    ensures Entries(ls + [len], asShorts, halveLong) ==
      Entries(ls, asShorts, halveLong) + LocaEntry(PaddedSum(ls) + Padded4(len), asShorts, halveLong)
  {
    assert (ls + [len])[..|ls|] == ls;
  }

  /**
   * BuildGlyphLocations, corrected: a zero entry, then for each needed
   * glyph the running sum of the padded lengths, halved as a short, or
   * whole as an int (the source halves it in both formats; see Locations).
   */
  method BuildGlyphLocations(glyphs: seq<GlyphData>, asShorts: bool) returns (loca: seq<byte>)
    ensures loca == CorrectedLocations(glyphs, asShorts)
  {
    var offset := 0;
    var out := new ByteStream();
    if asShorts {
      out.WriteShort(0);
    } else {
      out.WriteInt(0);
    }
    var i := 0;
    while i < |glyphs|
      invariant 0 <= i <= |glyphs|
      invariant offset == PaddedSum(KeptLengths(glyphs[..i]))
      invariant out.bytes == Entries(KeptLengths(glyphs[..i]), asShorts, false)
    {
      KeptStep(glyphs, i);
      ghost var ls := KeptLengths(glyphs[..i]);
      var glyph := glyphs[i];
      if glyph.needed {
        EntriesStep(ls, glyph.length, asShorts, false);
        assert KeptLengths(glyphs[..i + 1]) == ls + [glyph.length];
        var paddedLength := Padded4(glyph.length);
        offset := offset + paddedLength;
        if asShorts {
          out.WriteShort(Reindex.TruncDiv(offset, 2));
        } else {
          out.WriteInt(offset);
        }
        assert offset == PaddedSum(ls + [glyph.length]);
        assert out.bytes == Entries(ls + [glyph.length], asShorts, false);
      } else {
        assert KeptLengths(glyphs[..i + 1]) == ls;
      }
      i := i + 1;
    }
    assert glyphs[..i] == glyphs;
    loca := out.bytes;
  }

  /** The short format never halves differently: as written and corrected agree there. */
  lemma ShortFormatAgrees(gs: seq<GlyphData>)
    ensures Locations(gs, true) == CorrectedLocations(gs, true)
  {
    EntriesShortAgree(KeptLengths(gs));
  }

  lemma {:induction false} EntriesShortAgree(ls: seq<int>)
    ensures Entries(ls, true, true) == Entries(ls, true, false)
    decreases |ls|
  {
    if ls != [] {
      EntriesShortAgree(ls[..|ls| - 1]);
    }
  }

  // ---------------------------------------------------------------- the round trip

  /** Consecutive padded sums differ by the padded length. */
  lemma PaddedSumNext(ls: seq<int>, k: nat)
    requires k < |ls|
    ensures PaddedSum(ls[..k + 1]) == PaddedSum(ls[..k]) + Padded4(ls[k])
  {
    assert ls[..k + 1][..k] == ls[..k];
  }

  /** The padded sums of non-negative lengths are multiples of 4 that grow with the prefix. */
  lemma {:induction false} PaddedSumBounds(ls: seq<nat>, j: nat, m: nat)
    requires j <= m <= |ls|
    ensures 0 <= PaddedSum(ls[..j]) <= PaddedSum(ls[..m]) && PaddedSum(ls[..j]) % 4 == 0
    decreases m
  {
    if m == 0 {
      assert ls[..0] == [];
    } else {
      PaddedSumNext(ls, m - 1);
      if j < m {
        PaddedSumBounds(ls, j, m - 1);
      } else {
        PaddedSumBounds(ls, m - 1, m - 1);
      }
    }
  }

  /** The entries of a prefix are a prefix of the entries. */
  lemma {:induction false} EntriesPrefix(ls: seq<int>, j: nat, asShorts: bool, halveLong: bool)
    requires j <= |ls|
    ensures Entries(ls[..j], asShorts, halveLong) <= Entries(ls, asShorts, halveLong)
    decreases |ls|
  {
    if j < |ls| {
      var n := |ls| - 1;
      assert ls[..n][..j] == ls[..j];
      EntriesPrefix(ls[..n], j, asShorts, halveLong);
    } else {
      assert ls[..j] == ls;
    }
  }

  /** Entry j of the table is the entry for the padded sum of the first j lengths. */
  lemma EntryPlaced(ls: seq<int>, j: nat, asShorts: bool, halveLong: bool)
    requires j <= |ls|
    ensures var w := if asShorts then 2 else 4;
      Entries(ls, asShorts, halveLong)[w * j..w * j + w] == LocaEntry(PaddedSum(ls[..j]), asShorts, halveLong)
  {
    var w := if asShorts then 2 else 4;
    EntriesPrefix(ls, j, asShorts, halveLong);
    var pre := Entries(ls[..j], asShorts, halveLong);
    if j == 0 {
      assert ls[..0] == [];
    } else {
      assert ls[..j][..j - 1] == ls[..j - 1];
    }
    assert pre[w * j..w * j + w] == LocaEntry(PaddedSum(ls[..j]), asShorts, halveLong);
  }

  /** The short at o of a buffer holding ShortBytes(v) there is `(short)v`. */
  lemma ShortField(buf: seq<byte>, o: nat, v: int)
    requires o + 2 <= |buf| && buf[o..o + 2] == ShortBytes(v)
    ensures GetShort(buf, o) == ToInt16(v)
  {
    GetShortOfShortBytes([], v);
    assert [] + ShortBytes(v) == ShortBytes(v);
  }

  /** The int at o of a buffer holding IntBytes(v) there is v, for a 32-bit v. */
  lemma IntField(buf: seq<byte>, o: nat, v: int)
    requires o + 4 <= |buf| && buf[o..o + 4] == IntBytes(v) && IsInt32(v)
    ensures GetInt(buf, o) == v
  {
    GetIntOfIntBytes([], v);
    assert [] + IntBytes(v) == IntBytes(v);
  }

  /** A halved multiple of 4 below 0x20000 survives the short and the `& 0xFFFF`. */
  lemma HalfSurvives(s: int)
    requires 0 <= s <= 0x1FFFF && s % 4 == 0
    ensures CMapDecode.U16(ToInt16(s / 2)) * 2 == s
  {
    ToInt16Congruent(s / 2);
  }

  /** What the reader takes from entry j of a written table, in the short format. */
  lemma ShortEntryRead(ls: seq<nat>, j: nat, halveLong: bool)
    requires j <= |ls| && PaddedSum(ls) <= 0x1FFFF
    ensures RawEntry(Entries(ls, true, halveLong), j, false) == PaddedSum(ls[..j])
  {
    var s := PaddedSum(ls[..j]);
    PaddedSumBounds(ls, j, |ls|);
    assert ls[..|ls|] == ls;
    EntryPlaced(ls, j, true, halveLong);
    ShortField(Entries(ls, true, halveLong), 2 * j, s / 2);
    HalfSurvives(s);
  }

  /** What the reader takes from entry j of a written table, in the long format. */
  lemma LongEntryRead(ls: seq<nat>, j: nat, halveLong: bool)
    requires j <= |ls| && PaddedSum(ls) < 0x8000_0000
    ensures RawEntry(Entries(ls, false, halveLong), j, true) ==
      (if halveLong then PaddedSum(ls[..j]) / 2 else PaddedSum(ls[..j]))
  {
    var s := PaddedSum(ls[..j]);
    PaddedSumBounds(ls, j, |ls|);
    assert ls[..|ls|] == ls;
    EntryPlaced(ls, j, false, halveLong);
    IntField(Entries(ls, false, halveLong), 4 * j, if halveLong then s / 2 else s);
  }

  /** The glyph a reader finds at entry k of a written table, glyf starting at g. */
  function PlacedGlyph(ls: seq<nat>, k: nat, g: int, halve: bool): (r: GlyphData)
    requires k < |ls|
    ensures r.length >= 0
  {
    if halve then GlyphData(false, false, g + PaddedSum(ls[..k]) / 2, Padded4(ls[k]) / 2, 0, 0, 0, 0)
    else GlyphData(false, false, g + PaddedSum(ls[..k]), Padded4(ls[k]), 0, 0, 0, 0)
  }

  /** The bounds under which a written table reads back without wrap-around, glyf starting at g. */
  predicate Fits(ls: seq<int>, asShorts: bool, g: int)
  {
    0 <= g &&
    if asShorts then PaddedSum(ls) <= 0x1FFFF && g + 0x20000 < 0x8000_0000
    else g + PaddedSum(ls) < 0x8000_0000
  }

  /** The raw entries the reader takes around glyph k. */
  lemma EntriesAround(ls: seq<nat>, k: nat, asShorts: bool, halveLong: bool, g: int)
    requires k < |ls| && Fits(ls, asShorts, g)
    ensures var buf, a, b := Entries(ls, asShorts, halveLong), PaddedSum(ls[..k]), PaddedSum(ls[..k + 1]);
      0 <= a && a % 4 == 0 && b == a + Padded4(ls[k]) && b <= PaddedSum(ls) &&
      RawEntry(buf, k, !asShorts) == (if !asShorts && halveLong then a / 2 else a) &&
      RawEntry(buf, k + 1, !asShorts) == (if !asShorts && halveLong then b / 2 else b)
  {
    PaddedSumBounds(ls, k, k + 1);
    PaddedSumBounds(ls, k + 1, |ls|);
    assert ls[..|ls|] == ls;
    PaddedSumNext(ls, k);
    if asShorts {
      ShortEntryRead(ls, k, halveLong);
      ShortEntryRead(ls, k + 1, halveLong);
    } else {
      LongEntryRead(ls, k, halveLong);
      LongEntryRead(ls, k + 1, halveLong);
    }
  }

  /** Halving two multiples of 4 keeps their order and halves their difference. */
  lemma Halves(a: int, p: int)
    requires 0 <= a && 0 <= p && a % 4 == 0 && p % 4 == 0
    ensures a / 2 <= (a + p) / 2 && (a + p) / 2 - a / 2 == p / 2
  {
    assert a == 4 * (a / 4) && p == 4 * (p / 4);
    assert a / 2 == 2 * (a / 4) && (a + p) / 2 == 2 * (a / 4) + 2 * (p / 4) && p / 2 == 2 * (p / 4);
  }

  /** One glyph of the round trip. */
  lemma PlacedStep(ls: seq<nat>, k: nat, asShorts: bool, halveLong: bool, g: int)
    requires k < |ls| && Fits(ls, asShorts, g)
    ensures var buf, halve := Entries(ls, asShorts, halveLong), !asShorts && halveLong;
      GlyphOffset(buf, k, !asShorts, g) == PlacedGlyph(ls, k, g, halve).offset &&
      GlyphLength(buf, k, !asShorts, g) == PlacedGlyph(ls, k, g, halve).length
  {
    var buf := Entries(ls, asShorts, halveLong);
    var a, p := PaddedSum(ls[..k]), Padded4(ls[k]);
    EntriesAround(ls, k, asShorts, halveLong, g);
    var ra, rb := RawEntry(buf, k, !asShorts), RawEntry(buf, k + 1, !asShorts);
    if !asShorts && halveLong {
      Halves(a, p);
      assert ra == a / 2 && rb == (a + p) / 2;
      assert rb - ra == p / 2;
    } else {
      assert ra == a && rb == a + p;
    }
    OffsetExact(buf, k, !asShorts, g);
    LengthExact(buf, k, !asShorts, g);
  }

  /**
   * Decoding a 'loca' table written for glyphs of lengths ls, glyf starting
   * at g: every glyph is found at g plus the padded lengths before it, with
   * its padded length — or, with the long format's offsets halved as the
   * source writes them, at half of both.
   */
  lemma LocaRoundTrip(ls: seq<nat>, asShorts: bool, halveLong: bool, g: int, init: int)
    requires Fits(ls, asShorts, g)
    ensures var d := DecodeLoca(Entries(ls, asShorts, halveLong), |ls|, !asShorts, g, init);
      d.Success? && d.value.glyphs == seq(|ls|, k requires 0 <= k < |ls| => PlacedGlyph(ls, k, g, !asShorts && halveLong))
  {
    OffsetsPlaced(ls, asShorts, halveLong, g, Entries(ls, asShorts, halveLong),
      LocaOffsets(Entries(ls, asShorts, halveLong), |ls|, !asShorts, g));
  }

  /** Every glyph of the written table, read back from its offsets, is where PlacedGlyph says, with a non-negative length. */
  lemma OffsetsPlaced(ls: seq<nat>, asShorts: bool, halveLong: bool, g: int, buf: seq<byte>, offsets: seq<int>)
    requires Fits(ls, asShorts, g) && buf == Entries(ls, asShorts, halveLong)
    requires HasEntry(buf, |ls|, !asShorts) && offsets == LocaOffsets(buf, |ls|, !asShorts, g)
    ensures GapsOk(offsets, |ls|)
    ensures forall k | 0 <= k < |ls| :: Located(offsets, k) == PlacedGlyph(ls, k, g, !asShorts && halveLong)
  {
    forall k | 0 <= k < |ls|
      ensures Located(offsets, k) == PlacedGlyph(ls, k, g, !asShorts && halveLong)
      ensures Gap(offsets, k) >= 0
    {
      PlacedStep(ls, k, asShorts, halveLong, g);
      GapIsLength(buf, |ls|, !asShorts, g, k);
    }
  }

  /**
   * The defect of the long format as written: one kept glyph of 4 bytes
   * gets the entries 0 and 2, and a reader of the long format finds a
   * glyph of 2 bytes.
   */
  lemma LongLocaAsWritten()
    ensures var d := DecodeLoca(Entries([4], false, true), 1, true, 0, 0);
      d.Success? && d.value.glyphs[0].length == 2
  {
    LocaRoundTrip([4], false, true, 0, 0);
  }

  /** With the offsets written whole, the same table reads back the 4-byte glyph. */
  lemma LongLocaCorrected()
    ensures var d := DecodeLoca(Entries([4], false, false), 1, true, 0, 0);
      d.Success? && d.value.glyphs[0].length == 4
  {
    LocaRoundTrip([4], false, false, 0, 0);
  }
}
