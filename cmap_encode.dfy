/**
 * OpenTypeFont.BuildCMap: the 'cmap' table of the subset, a version 0
 * header with two encoding records (Unicode platform encoding 3 and
 * Microsoft platform encoding 1) that share one format 4 subtable at
 * offset 20.  Each segment either maps by a constant delta or points
 * into the shared glyph id array (its GlyphsBefore is where its ids start).
 */
module CMapEncode {
  import opened BigEndian
  import opened Outcome
  import opened Records
  import opened Sfnt
  import opened Writer
  import opened CMapSegments

  /** The message of BuildCMap's final length check. */
  const INCONSISTENT_CMAP: string := "inconsistent cmap"

  /** A format 4 segment as BuildCMap fills in EncodingSegment. */
  datatype Segment = Segment(start: int, end: int, glyphIds: seq<int>, constDelta: bool, glyphsBefore: int)

  /**
   * The glyph id the subset stores for code point ch: 0 stays 0, any other
   * glyph index is replaced by the glyph's new index cast to short.  A
   * missing key throws KeyNotFoundException, a glyph index outside the
   * glyph list ArgumentOutOfRangeException.
   */
  function MappedGlyph(chars: map<int, CharacterData>, glyphs: seq<GlyphData>, ch: int): (r: Result<int>)
    ensures r.Success? ==> IsInt16(r.value) || (ch in chars && r.value == chars[ch].glyphIndex)
    ensures r.Failure? <==> ch !in chars || (chars[ch].glyphIndex != 0 && !(0 <= chars[ch].glyphIndex < |glyphs|))
  {
    if ch !in chars then Failure(KEY_NOT_FOUND)
    else
      var gi := chars[ch].glyphIndex;
      if gi == 0 then Success(0)
      else if !(0 <= gi < |glyphs|) then Failure(INDEX_OUT_OF_RANGE)
      else Success(ToInt16(glyphs[gi].newIndex))
  }

  /** The glyph ids of the n code points from start on, or the first failure among them. */
  function SegmentGlyphs(chars: map<int, CharacterData>, glyphs: seq<GlyphData>, start: int, n: nat): (r: Result<seq<int>>)
    ensures r.Success? ==> |r.value| == n
    ensures r.Success? ==> forall k | 0 <= k < n :: MappedGlyph(chars, glyphs, start + k) == Success(r.value[k])
    ensures r.Failure? ==> exists ch | start <= ch < start + n :: MappedGlyph(chars, glyphs, ch) == Failure(r.error)
  {
    if n == 0 then Success([])
    else
      var prev := SegmentGlyphs(chars, glyphs, start, n - 1);
      if prev.Failure? then prev
      else
        var g := MappedGlyph(chars, glyphs, start + n - 1);
        if g.Failure? then Failure(g.error) else Success(prev.value + [g.value])
  }

  /** The glyph ids of a segment differ from their code points by one constant. */
  predicate ConstDelta(ids: seq<int>, start: int)
  {
    |ids| > 0 && forall k | 0 <= k < |ids| :: ids[k] - (start + k) == ids[0] - start
  }

  /** How many glyph ids the array segments of segs put into the shared glyph id array. */
  function ArrayCount(segs: seq<Segment>): (r: nat)
  {
    if segs == [] then 0
    else
      var last := segs[|segs| - 1];
      ArrayCount(segs[..|segs| - 1]) + (if last.constDelta then 0 else |last.glyphIds|)
  }

  /** The length field of the format 4 subtable: 16 fixed bytes, four shorts per segment and the glyph id array. */
  function SectionLength(segs: seq<Segment>): int
  {
    16 + 8 * |segs| + 2 * ArrayCount(segs)
  }

  /** The segment BuildCMap makes of one range, placing its glyph ids after `before` earlier ones. */
  function SegmentOf(chars: map<int, CharacterData>, glyphs: seq<GlyphData>, rg: Range, before: nat): (r: Result<Segment>)
    requires rg.start <= rg.end
    ensures r.Success? ==> r.value.start == rg.start && r.value.end == rg.end
    ensures r.Success? ==> |r.value.glyphIds| == rg.end - rg.start + 1
  {
    var ids := SegmentGlyphs(chars, glyphs, rg.start, rg.end - rg.start + 1);
    if ids.Failure? then Failure(ids.error)
    else
      var c := ConstDelta(ids.value, rg.start);
      Success(Segment(rg.start, rg.end, ids.value, c, if c then 0 else before))
  }

  /** The ranges are well formed: each starts no later than it ends. */
  predicate Ordered(rgs: seq<Range>)
  {
    forall i | 0 <= i < |rgs| :: rgs[i].start <= rgs[i].end
  }

  /** BuildCMap's glyph id collection over all ranges, in order, stopping at the first failure. */
  function Segments(chars: map<int, CharacterData>, glyphs: seq<GlyphData>, rgs: seq<Range>): (r: Result<seq<Segment>>)
    requires Ordered(rgs)
    ensures r.Success? ==> |r.value| == |rgs|
  {
    if rgs == [] then Success([])
    else
      var prev := Segments(chars, glyphs, rgs[..|rgs| - 1]);
      if prev.Failure? then prev
      else
        var s := SegmentOf(chars, glyphs, rgs[|rgs| - 1], ArrayCount(prev.value));
        if s.Failure? then Failure(s.error) else Success(prev.value + [s.value])
  }

  /** The largest needed code point, or 0 when there is no positive one (the maxChar of BuildCMap). */
  ghost function MaxCode(mask: set<int>): (r: int)
    ensures r >= 0 && (r == 0 || r in mask)
    ensures forall ch | ch in mask :: ch <= r
    decreases mask
  {
    if mask == {} then 0
    else
      NonEmpty(mask);
      var x :| x in mask;
      var rest := MaxCode(mask - {x});
      assert forall ch | ch in mask :: ch == x || ch in mask - {x};
      if x > rest then x else rest
  }

  /** The ranges BuildCMap encodes for a character map. */
  ghost function CMapRanges(chars: map<int, CharacterData>): seq<Range>
  {
    var mask := NeededCodes(chars);
    SegmentRanges(mask, MaxCode(mask))
  }

  /** The big-endian shorts of ns, each written by WriteShort. */
  function Shorts(ns: seq<int>): (r: seq<byte>)
    ensures |r| == 2 * |ns|
  {
    if ns == [] then [] else Shorts(ns[..|ns| - 1]) + ShortBytes(ns[|ns| - 1])
  }

  /** The endCount column. */
  function Ends(segs: seq<Segment>): (r: seq<int>)
    ensures |r| == |segs| && forall i | 0 <= i < |segs| :: r[i] == segs[i].end
  {
    seq(|segs|, i requires 0 <= i < |segs| => segs[i].end)
  }

  /** The startCount column. */
  function Starts(segs: seq<Segment>): (r: seq<int>)
    ensures |r| == |segs| && forall i | 0 <= i < |segs| :: r[i] == segs[i].start
  {
    seq(|segs|, i requires 0 <= i < |segs| => segs[i].start)
  }

  /** The idDelta of a segment: first glyph id minus start for a constant-delta segment, else 0. */
  function Delta(s: Segment): int
  {
    if s.constDelta && |s.glyphIds| > 0 then s.glyphIds[0] - s.start else 0
  }

  /** The idDelta column. */
  function Deltas(segs: seq<Segment>): (r: seq<int>)
    ensures |r| == |segs| && forall i | 0 <= i < |segs| :: r[i] == Delta(segs[i])
  {
    seq(|segs|, i requires 0 <= i < |segs| => Delta(segs[i]))
  }

  /**
   * The idRangeOffset of segment i of n: 0 for a constant-delta segment,
   * otherwise the byte distance from this idRangeOffset entry to the
   * segment's first entry in the glyph id array.
   */
  function RangeOffset(s: Segment, i: int, n: int): int
  {
    if s.constDelta then 0 else 2 * (n - i + s.glyphsBefore)
  }

  /** The idRangeOffset column. */
  function RangeOffsets(segs: seq<Segment>): (r: seq<int>)
    ensures |r| == |segs| && forall i | 0 <= i < |segs| :: r[i] == RangeOffset(segs[i], i, |segs|)
  {
    seq(|segs|, i requires 0 <= i < |segs| => RangeOffset(segs[i], i, |segs|))
  }

  /** The shared glyph id array: the ids of the array segments, in segment order. */
  function GlyphArray(segs: seq<Segment>): (r: seq<int>)
    ensures |r| == ArrayCount(segs)
  {
    if segs == [] then []
    else
      var last := segs[|segs| - 1];
      GlyphArray(segs[..|segs| - 1]) + (if last.constDelta then [] else last.glyphIds)
  }

  /** The cmap header and its two encoding records, both pointing at offset 20. */
  function CMapHeader(): (r: seq<byte>)
    ensures |r| == 20
  {
    ShortBytes(0) + ShortBytes(2) + ShortBytes(0) + ShortBytes(3) + IntBytes(20) +
    ShortBytes(3) + ShortBytes(1) + IntBytes(20)
  }

  /**
   * The 14-byte head of the format 4 subtable: format, length, language,
   * segCountX2, searchRange, entrySelector, rangeShift.  A `(short)` cast
   * before WriteShort leaves the two bytes written unchanged, so the casts
   * of the source do not appear.
   */
  function Format4Header(segCount: int, sectionLength: int): (r: seq<byte>)
    ensures |r| == 14
  {
    var log := FloorLog2(segCount % TWO_16);
    var searchRange := ShiftLeft(1, log + 1);
    ShortBytes(4) + ShortBytes(sectionLength) + ShortBytes(0) + ShortBytes(segCount * 2) +
    ShortBytes(searchRange) + ShortBytes(log) + ShortBytes(segCount * 2 - searchRange)
  }

  /** The format 4 subtable of segs. */
  function Format4Bytes(segs: seq<Segment>): (r: seq<byte>)
  {
    Format4Header(|segs|, SectionLength(segs)) + Shorts(Ends(segs)) + ShortBytes(0) + Shorts(Starts(segs)) +
    Shorts(Deltas(segs)) + Shorts(RangeOffsets(segs)) + Shorts(GlyphArray(segs))
  }

  /** What BuildCMap makes of the outcome of its glyph id collection. */
  function CMapOf(segs: Result<seq<Segment>>): (r: Result<seq<byte>>)
  {
    if segs.Failure? then Failure(segs.error)
    else if SectionLength(segs.value) > 0xFFFF then Failure(CMAP_TOO_LONG)
    else Success(CMapHeader() + Format4Bytes(segs.value))
  }

  /** What BuildCMap returns for a character map and a reindexed glyph list. */
  ghost function CMapTable(chars: map<int, CharacterData>, glyphs: seq<GlyphData>): Result<seq<byte>>
  {
    SegmentRangesOrdered(NeededCodes(chars), MaxCode(NeededCodes(chars)));
    CMapOf(Segments(chars, glyphs, CMapRanges(chars)))
  }

  /** Runs are well formed, and so is the 0xFFFF segment. */
  lemma SegmentRangesOrdered(mask: set<int>, n: int)
    ensures Ordered(SegmentRanges(mask, n))
  {
    RunsMaximal(mask, n);
    var rs := Runs(mask, n);
    var all := SegmentRanges(mask, n);
    forall i | 0 <= i < |all|
      ensures all[i].start <= all[i].end
    {
      if i < |rs| {
        assert all[i] == rs[i];
      }
    }
  }

  /** maxChar is determined by the three facts CollectNeeded establishes. */
  lemma MaxCodeUnique(mask: set<int>, m: int)
    requires m >= 0 && (m == 0 || m in mask)
    requires forall ch | ch in mask :: ch <= m
    ensures m == MaxCode(mask)
  {
  }

  /** Once the ids of the first k code points fail, those of any longer prefix fail the same way. */
  lemma {:induction false} GlyphsFailure(chars: map<int, CharacterData>, glyphs: seq<GlyphData>, start: int, k: nat, n: nat)
    requires k <= n && SegmentGlyphs(chars, glyphs, start, k).Failure?
    ensures SegmentGlyphs(chars, glyphs, start, n) == SegmentGlyphs(chars, glyphs, start, k)
    decreases n
  {
    if n > k {
      GlyphsFailure(chars, glyphs, start, k, n - 1);
    }
  }

  /** Once the segments of the first j ranges fail, those of all ranges fail the same way. */
  lemma {:induction false} SegmentsFailure(chars: map<int, CharacterData>, glyphs: seq<GlyphData>, rgs: seq<Range>, j: nat)
    requires Ordered(rgs) && j <= |rgs| && Segments(chars, glyphs, rgs[..j]).Failure?
    ensures Segments(chars, glyphs, rgs) == Segments(chars, glyphs, rgs[..j])
    decreases |rgs|
  {
    if j < |rgs| {
      var front := rgs[..|rgs| - 1];
      assert front[..j] == rgs[..j];
      SegmentsFailure(chars, glyphs, front, j);
    } else {
      assert rgs[..j] == rgs;
    }
  }

  /**
   * BuildCMap's inner loop over the code points of one segment: their glyph
   * ids, and whether they all differ from their code points by the same
   * delta as the first.
   */
  method CollectGlyphIds(chars: map<int, CharacterData>, glyphs: seq<GlyphData>, start: int, segLen: nat)
    returns (ids: Result<seq<int>>, constDelta: bool)
    ensures ids == SegmentGlyphs(chars, glyphs, start, segLen)
    ensures ids.Success? ==> constDelta == ConstDelta(ids.value, start)
  {
    var glyphIds: seq<int> := [];
    var delta := 0;
    constDelta := false;
    var k := 0;
    while k < segLen
      invariant 0 <= k <= segLen
      invariant SegmentGlyphs(chars, glyphs, start, k) == Success(glyphIds)
      invariant constDelta == ConstDelta(glyphIds, start)
      invariant k > 0 ==> delta == glyphIds[0] - start
    {
      ghost var before := glyphIds;
      var ch := k + start;
      if ch !in chars {
        GlyphsFailure(chars, glyphs, start, k + 1, segLen);
        return Failure(KEY_NOT_FOUND), constDelta;
      }
      var glyphIndex := chars[ch].glyphIndex;
      if glyphIndex != 0 {
        if !(0 <= glyphIndex < |glyphs|) {
          GlyphsFailure(chars, glyphs, start, k + 1, segLen);
          return Failure(INDEX_OUT_OF_RANGE), constDelta;
        }
        glyphIndex := ToInt16(glyphs[glyphIndex].newIndex);
      }
      var d := glyphIndex - ch;
      if k == 0 {
        delta := d;
        constDelta := true;
      } else if delta != d {
        constDelta := false;
      }
      glyphIds := glyphIds + [glyphIndex];
      ConstDeltaSnoc(before, glyphIndex, start);
      k := k + 1;
    }
    ids := Success(glyphIds);
  }

  /** One turn of BuildCMap's segment loop: the segment of range rg, its ids placed after glyphsBefore others. */
  method CollectSegment(chars: map<int, CharacterData>, glyphs: seq<GlyphData>, rg: Range, glyphsBefore: nat)
    returns (r: Result<Segment>)
    requires rg.start <= rg.end
    ensures r == SegmentOf(chars, glyphs, rg, glyphsBefore)
  {
    var ids, constDelta := CollectGlyphIds(chars, glyphs, rg.start, rg.end - rg.start + 1);
    if ids.Failure? {
      return Failure(ids.error);
    }
    var segment := Segment(rg.start, rg.end, ids.value, constDelta, 0);
    if !constDelta {
      segment := segment.(glyphsBefore := glyphsBefore);
    }
    r := Success(segment);
  }

  /** BuildCMap's loop collecting the glyph ids of every segment and the length of the subtable. */
  method CollectSegments(chars: map<int, CharacterData>, glyphs: seq<GlyphData>, ranges: seq<Range>)
    returns (r: Result<seq<Segment>>, sectionLength: int)
    requires Ordered(ranges)
    ensures r == Segments(chars, glyphs, ranges)
    ensures r.Success? ==> sectionLength == SectionLength(r.value)
  {
    var segs: seq<Segment> := [];
    sectionLength := 16 + 8 * |ranges|;
    var glyphsBefore := 0;
    var i := 0;
    while i < |ranges|
      invariant 0 <= i <= |ranges|
      invariant Segments(chars, glyphs, ranges[..i]) == Success(segs) && |segs| == i
      invariant glyphsBefore == ArrayCount(segs)
      invariant sectionLength == 16 + 8 * |ranges| + 2 * glyphsBefore
    {
      var segment := CollectSegment(chars, glyphs, ranges[i], glyphsBefore);
      if segment.Failure? {
        SegmentsFailAt(chars, glyphs, ranges, i, segs, segment);
        return Failure(segment.error), sectionLength;
      }
      if !segment.value.constDelta {
        sectionLength := sectionLength + 2 * |segment.value.glyphIds|;
        glyphsBefore := glyphsBefore + |segment.value.glyphIds|;
      }
      SegmentsStep(chars, glyphs, ranges, i, segs, segment.value);
      segs := segs + [segment.value];
      i := i + 1;
    }
    assert ranges[..i] == ranges;
    r := Success(segs);
  }

  /** Splitting the shorts of a concatenation. */
  lemma {:induction false} ShortsAppend(a: seq<int>, b: seq<int>)
    ensures Shorts(a + b) == Shorts(a) + Shorts(b)
    decreases |b|
  {
    if b != [] {
      var front := b[..|b| - 1];
      assert (a + b)[..|a + b| - 1] == a + front;
      ShortsAppend(a, front);
    } else {
      assert a + b == a;
    }
  }

  /** One of BuildCMap's column loops: WriteShort of each value in turn. */
  method WriteColumn(out: ByteStream, col: seq<int>)
    modifies out
    ensures out.bytes == old(out.bytes) + Shorts(col)
  {
    var i := 0;
    while i < |col|
      invariant 0 <= i <= |col|
      invariant out.bytes == old(out.bytes) + Shorts(col[..i])
    {
      assert col[..i + 1][..i] == col[..i];
      out.WriteShort(col[i]);
      i := i + 1;
    }
    assert col[..i] == col;
  }

  /** The last loop of BuildCMap: the glyph ids of every array segment. */
  method WriteGlyphArray(out: ByteStream, segs: seq<Segment>)
    modifies out
    ensures out.bytes == old(out.bytes) + Shorts(GlyphArray(segs))
  {
    var i := 0;
    while i < |segs|
      invariant 0 <= i <= |segs|
      invariant out.bytes == old(out.bytes) + Shorts(GlyphArray(segs[..i]))
    {
      ghost var written := GlyphArray(segs[..i]);
      ghost var ids := if segs[i].constDelta then [] else segs[i].glyphIds;
      GlyphArrayStep(segs, i);
      ShortsAppend(written, ids);
      AppendAssoc(old(out.bytes), Shorts(written), Shorts(ids));
      if !segs[i].constDelta {
        WriteColumn(out, segs[i].glyphIds);
      }
      assert out.bytes == old(out.bytes) + Shorts(written) + Shorts(ids);
      i := i + 1;
    }
    assert segs[..i] == segs;
  }

  /** The cmap header and the two encoding records. */
  method WriteCMapHeader(out: ByteStream)
    modifies out
    ensures out.bytes == old(out.bytes) + CMapHeader()
  {
    out.WriteShort(0);
    out.WriteShort(2);
    out.WriteShort(0);
    out.WriteShort(3);
    out.WriteInt(20);
    out.WriteShort(3);
    out.WriteShort(1);
    out.WriteInt(20);
  }

  /** The fixed fields of the format 4 subtable. */
  method WriteFormat4Header(out: ByteStream, segCount: nat, sectionLength: int)
    modifies out
    ensures out.bytes == old(out.bytes) + Format4Header(segCount, sectionLength)
  {
    ghost var start := out.bytes;
    out.WriteShort(4);
    ghost var written := ShortBytes(4);
    AppendAssoc(start, written, ShortBytes(sectionLength));
    out.WriteShort(sectionLength);
    written := written + ShortBytes(sectionLength);
    AppendAssoc(start, written, ShortBytes(0));
    out.WriteShort(0);
    written := written + ShortBytes(0);
    AppendAssoc(start, written, ShortBytes(segCount * 2));
    out.WriteShort(segCount * 2);
    written := written + ShortBytes(segCount * 2);
    var found := FloorPowerOf2(segCount % TWO_16);
    var log := found.value;
    FloorLog2Correct(segCount % TWO_16);
    FloorLog2Unique(segCount % TWO_16, log, FloorLog2(segCount % TWO_16));
    var entrySelector := log;
    var searchRange := ShiftLeft(1, log + 1);
    var rangeShift := segCount * 2 - searchRange;
    AppendAssoc(start, written, ShortBytes(searchRange));
    out.WriteShort(searchRange);
    written := written + ShortBytes(searchRange);
    AppendAssoc(start, written, ShortBytes(entrySelector));
    out.WriteShort(entrySelector);
    written := written + ShortBytes(entrySelector);
    AppendAssoc(start, written, ShortBytes(rangeShift));
    out.WriteShort(rangeShift);
    written := written + ShortBytes(rangeShift);
    assert out.bytes == start + written;
    Format4HeaderFields(segCount, sectionLength, log);
  }

  /** The fields of the format 4 header, with the exponent named. */
  lemma Format4HeaderFields(segCount: int, sectionLength: int, log: int)
    requires log == FloorLog2(segCount % TWO_16)
    ensures Format4Header(segCount, sectionLength) ==
      ShortBytes(4) + ShortBytes(sectionLength) + ShortBytes(0) + ShortBytes(segCount * 2) +
      ShortBytes(ShiftLeft(1, log + 1)) + ShortBytes(log) + ShortBytes(segCount * 2 - ShiftLeft(1, log + 1))
  {
  }

  /** Everything BuildCMap writes after the header, in order. */
  method WriteFormat4(out: ByteStream, segs: seq<Segment>, sectionLength: int)
    requires sectionLength == SectionLength(segs)
    modifies out
    ensures out.bytes == old(out.bytes) + Format4Bytes(segs)
  {
    ghost var start := out.bytes;
    WriteFormat4Header(out, |segs|, sectionLength);
    ghost var written := Format4Header(|segs|, sectionLength);
    AppendAssoc(start, written, Shorts(Ends(segs)));
    WriteColumn(out, Ends(segs));
    written := written + Shorts(Ends(segs));
    AppendAssoc(start, written, ShortBytes(0));
    out.WriteShort(0);
    written := written + ShortBytes(0);
    AppendAssoc(start, written, Shorts(Starts(segs)));
    WriteColumn(out, Starts(segs));
    written := written + Shorts(Starts(segs));
    AppendAssoc(start, written, Shorts(Deltas(segs)));
    WriteColumn(out, Deltas(segs));
    written := written + Shorts(Deltas(segs));
    AppendAssoc(start, written, Shorts(RangeOffsets(segs)));
    WriteColumn(out, RangeOffsets(segs));
    written := written + Shorts(RangeOffsets(segs));
    AppendAssoc(start, written, Shorts(GlyphArray(segs)));
    WriteGlyphArray(out, segs);
  }

  /** BuildCMap's result once the segments are collected and short enough. */
  lemma CMapOfSuccess(segs: Result<seq<Segment>>)
    requires segs.Success? && SectionLength(segs.value) <= 0xFFFF
    ensures CMapOf(segs) == Success(CMapHeader() + Format4Bytes(segs.value))
  {
  }

  /** The format 4 subtable is exactly as long as its length field says. */
  lemma Format4Length(segs: seq<Segment>)
    ensures |Format4Bytes(segs)| == SectionLength(segs)
  {
  }

  /** The writing half of BuildCMap: a fresh stream holding the header and the format 4 subtable. */
  method WriteCMap(segs: seq<Segment>, sectionLength: int) returns (arr: seq<byte>)
    requires sectionLength == SectionLength(segs)
    ensures arr == CMapHeader() + Format4Bytes(segs)
    ensures |arr| == sectionLength + 20
  {
    var out := new ByteStream();
    WriteCMapHeader(out);
    assert out.bytes == CMapHeader();
    WriteFormat4(out, segs, sectionLength);
    Format4Length(segs);
    arr := out.bytes;
  }

  /**
   * OpenTypeFont.BuildCMap: the cmap table of the subset for a character
   * map and the reindexed glyphs, or the exception it throws.
   */
  method BuildCMap(chars: map<int, CharacterData>, glyphs: seq<GlyphData>) returns (r: Result<seq<byte>>)
    ensures r == CMapTable(chars, glyphs)
  {
    var mask, maxChar := CollectNeeded(chars);
    MaxCodeUnique(mask, maxChar);
    var ranges := CollectRanges(mask, maxChar);
    SegmentRangesOrdered(mask, maxChar);
    var collected, sectionLength := CollectSegments(chars, glyphs, ranges);
    assert ranges == CMapRanges(chars);
    assert CMapTable(chars, glyphs) == CMapOf(collected);
    if collected.Failure? {
      return Failure(collected.error);
    }
    var segs := collected.value;
    if sectionLength > 0xFFFF {
      return Failure(CMAP_TOO_LONG);
    }
    var arr := WriteCMap(segs, sectionLength);
    if |arr| != sectionLength + 20 {
      assert false;
    }
    CMapOfSuccess(collected);
    r := Success(arr);
  }

  /** Appending one glyph id keeps the delta constant exactly when it matches the first. */
  lemma ConstDeltaSnoc(ids: seq<int>, g: int, start: int)
    ensures ConstDelta(ids + [g], start)
         == (ids == [] || (ConstDelta(ids, start) && g - (start + |ids|) == ids[0] - start))
  {
    var s := ids + [g];
    if ids != [] && ConstDelta(s, start) {
      forall k | 0 <= k < |ids|
        ensures ids[k] - (start + k) == ids[0] - start
      {
        assert s[k] == ids[k];
      }
      assert s[|ids|] == g;
    }
  }

  /** One turn of CollectSegments' loop, stated on the segment it builds. */
  lemma SegmentsStep(chars: map<int, CharacterData>, glyphs: seq<GlyphData>, ranges: seq<Range>, i: nat,
                     segs: seq<Segment>, segment: Segment)
    requires Ordered(ranges) && i < |ranges|
    requires Segments(chars, glyphs, ranges[..i]) == Success(segs)
    requires SegmentOf(chars, glyphs, ranges[i], ArrayCount(segs)) == Success(segment)
    ensures Segments(chars, glyphs, ranges[..i + 1]) == Success(segs + [segment])
    ensures ArrayCount(segs + [segment]) == ArrayCount(segs) + (if segment.constDelta then 0 else |segment.glyphIds|)
  {
    assert ranges[..i + 1][..i] == ranges[..i];
    assert (segs + [segment])[..|segs|] == segs;
  }

  /** CollectSegments stops at the first range whose segment fails, with that failure. */
  lemma SegmentsFailAt(chars: map<int, CharacterData>, glyphs: seq<GlyphData>, ranges: seq<Range>, i: nat,
                       segs: seq<Segment>, segment: Result<Segment>)
    requires Ordered(ranges) && i < |ranges|
    requires Segments(chars, glyphs, ranges[..i]) == Success(segs)
    requires segment == SegmentOf(chars, glyphs, ranges[i], ArrayCount(segs)) && segment.Failure?
    ensures Segments(chars, glyphs, ranges) == Failure(segment.error)
  {
    assert ranges[..i + 1][..i] == ranges[..i];
    SegmentsFailure(chars, glyphs, ranges, i + 1);
  }

  /** The glyph id array grows by the ids of each array segment in turn. */
  lemma GlyphArrayStep(segs: seq<Segment>, i: nat)
    requires i < |segs|
    ensures GlyphArray(segs[..i + 1]) == GlyphArray(segs[..i]) + (if segs[i].constDelta then [] else segs[i].glyphIds)
  {
    assert segs[..i + 1][..i] == segs[..i];
  }
}
