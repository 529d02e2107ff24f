/**
 * The encode/decode round trip of the format 4 'cmap' subtable: reading
 * what BuildCMap writes with ReadFormat4CMap gives back, for every code
 * point of every segment, the glyph id the encoder stored.
 */
module CMapFacts {
  import opened BigEndian
  import opened Outcome
  import opened Records
  import opened CMapSegments
  import opened CMapEncode
  import opened CMapDecode

  // ---------------------------------------------------------------------
  // Reading back a column of shorts
  // ---------------------------------------------------------------------

  /** Entry j of a column sits at bytes 2j and 2j + 1 of its shorts. */
  lemma {:induction false} ShortsIndex(col: seq<int>, j: nat)
    requires j < |col|
    ensures Shorts(col)[2 * j] == ByteAt(col[j], 1) && Shorts(col)[2 * j + 1] == ByteAt(col[j], 0)
    decreases |col|
  {
    var front := col[..|col| - 1];
    assert Shorts(col) == Shorts(front) + ShortBytes(col[|col| - 1]);
    if j < |front| {
      ShortsIndex(front, j);
    }
  }

  /** The signed value of the two bytes WriteShort emits for n is (short)n. */
  lemma ShortOfShortBytes(n: int)
    ensures ToInt16(ByteAt(n, 1) as int * 0x100 + ByteAt(n, 0)) == ToInt16(n)
  {
    GetShortOfShortBytes([], n);
    assert ([] + ShortBytes(n)) == ShortBytes(n);
  }

  /** The shorts of col sit in buf from position p on, high byte first. */
  ghost predicate Written(buf: seq<byte>, p: int, col: seq<int>)
  {
    0 <= p && p + 2 * |col| <= |buf| &&
    forall j | 0 <= j < |col| :: buf[p + 2 * j] == ByteAt(col[j], 1) && buf[p + 2 * j + 1] == ByteAt(col[j], 0)
  }

  /** Where a column of shorts was written, ShortAt reads its entries back as shorts. */
  lemma ColumnAt(buf: seq<byte>, p: int, col: seq<int>, j: nat)
    requires Written(buf, p, col)
    requires j < |col|
    ensures ShortAt(buf, p + 2 * j) == ToInt16(col[j])
  {
    ShortOfShortBytes(col[j]);
  }

  /** The first |col| entries of a read column are the written column cast to short. */
  ghost predicate ReadAs(read: seq<int>, col: seq<int>)
  {
    |col| <= |read| && forall j | 0 <= j < |col| :: read[j] == ToInt16(col[j])
  }

  /** ShortsAt over a written column gives the column cast to short, entry by entry. */
  lemma ColumnRead(buf: seq<byte>, p: int, col: seq<int>, n: nat)
    requires Written(buf, p, col)
    requires |col| <= n
    ensures ReadAs(ShortsAt(buf, p, n), col)
  {
    forall j | 0 <= j < |col|
      ensures ShortsAt(buf, p, n)[j] == ToInt16(col[j])
    {
      ColumnAt(buf, p, col, j);
    }
  }

  // ---------------------------------------------------------------------
  // Parsing the encoder's subtable
  // ---------------------------------------------------------------------

  /** The parsed arrays hold exactly the encoder's columns, cast to short. */
  ghost predicate ReadsBack(f: Format4, segs: seq<Segment>)
  {
    WellSized(f) && f.segCount == |segs| &&
    |f.glyphIds| == 2 * ArrayCount(segs) &&
    (forall i | 0 <= i < |segs| ::
      f.endCount[i] == ToInt16(segs[i].end) && f.startCount[i] == ToInt16(segs[i].start) &&
      f.idDelta[i] == ToInt16(Delta(segs[i])) && f.idRangeOffset[i] == ToInt16(RangeOffset(segs[i], i, |segs|))) &&
    (forall j | 0 <= j < ArrayCount(segs) :: f.glyphIds[j] == ToInt16(GlyphArray(segs)[j]))
  }

  /** A column written right after pre sits at position |pre|. */
  lemma WrittenAfter(pre: seq<byte>, p: int, col: seq<int>)
    requires p == |pre|
    ensures Written(pre + Shorts(col), p, col)
  {
    forall j | 0 <= j < |col|
      ensures (pre + Shorts(col))[p + 2 * j] == ByteAt(col[j], 1)
      ensures (pre + Shorts(col))[p + 2 * j + 1] == ByteAt(col[j], 0)
    {
      ShortsIndex(col, j);
    }
  }

  /** Appending bytes does not move what is already written. */
  lemma WrittenExtend(buf: seq<byte>, p: int, col: seq<int>, more: seq<byte>)
    requires Written(buf, p, col)
    ensures Written(buf + more, p, col)
  {
  }

  /** Where the endCount column of a format 4 subtable sits. */
  lemma LayoutEnds(h: seq<byte>, n: nat, e: seq<int>, st: seq<int>, d: seq<int>, ro: seq<int>, ga: seq<int>, rest: seq<byte>)
    requires |h| == 14 && |e| == n && |st| == n && |d| == n && |ro| == n
    ensures Written(h + Shorts(e) + ShortBytes(0) + Shorts(st) + Shorts(d) + Shorts(ro) + Shorts(ga) + rest, 14, e)
  {
    var buf := h;
    WrittenAfter(buf, 14, e);
    buf := buf + Shorts(e);
    WrittenExtend(buf, 14, e, ShortBytes(0));
    buf := buf + ShortBytes(0);
    WrittenExtend(buf, 14, e, Shorts(st));
    buf := buf + Shorts(st);
    WrittenExtend(buf, 14, e, Shorts(d));
    buf := buf + Shorts(d);
    WrittenExtend(buf, 14, e, Shorts(ro));
    buf := buf + Shorts(ro);
    WrittenExtend(buf, 14, e, Shorts(ga));
    buf := buf + Shorts(ga);
    WrittenExtend(buf, 14, e, rest);
    buf := buf + rest;
  }

  /** Where the startCount column of a format 4 subtable sits. */
  lemma LayoutStarts(h: seq<byte>, n: nat, e: seq<int>, st: seq<int>, d: seq<int>, ro: seq<int>, ga: seq<int>, rest: seq<byte>)
    requires |h| == 14 && |e| == n && |st| == n && |d| == n && |ro| == n
    ensures Written(h + Shorts(e) + ShortBytes(0) + Shorts(st) + Shorts(d) + Shorts(ro) + Shorts(ga) + rest, 16 + 2 * n, st)
  {
    var buf := h + Shorts(e) + ShortBytes(0);
    WrittenAfter(buf, 16 + 2 * n, st);
    buf := buf + Shorts(st);
    WrittenExtend(buf, 16 + 2 * n, st, Shorts(d));
    buf := buf + Shorts(d);
    WrittenExtend(buf, 16 + 2 * n, st, Shorts(ro));
    buf := buf + Shorts(ro);
    WrittenExtend(buf, 16 + 2 * n, st, Shorts(ga));
    buf := buf + Shorts(ga);
    WrittenExtend(buf, 16 + 2 * n, st, rest);
    buf := buf + rest;
  }

  /** Where the idDelta column of a format 4 subtable sits. */
  lemma LayoutDeltas(h: seq<byte>, n: nat, e: seq<int>, st: seq<int>, d: seq<int>, ro: seq<int>, ga: seq<int>, rest: seq<byte>)
    requires |h| == 14 && |e| == n && |st| == n && |d| == n && |ro| == n
    ensures Written(h + Shorts(e) + ShortBytes(0) + Shorts(st) + Shorts(d) + Shorts(ro) + Shorts(ga) + rest, 16 + 4 * n, d)
  {
    var buf := h + Shorts(e) + ShortBytes(0) + Shorts(st);
    WrittenAfter(buf, 16 + 4 * n, d);
    buf := buf + Shorts(d);
    WrittenExtend(buf, 16 + 4 * n, d, Shorts(ro));
    buf := buf + Shorts(ro);
    WrittenExtend(buf, 16 + 4 * n, d, Shorts(ga));
    buf := buf + Shorts(ga);
    WrittenExtend(buf, 16 + 4 * n, d, rest);
    buf := buf + rest;
  }

  /** Where the idRangeOffset column of a format 4 subtable sits. */
  lemma LayoutOffsets(h: seq<byte>, n: nat, e: seq<int>, st: seq<int>, d: seq<int>, ro: seq<int>, ga: seq<int>, rest: seq<byte>)
    requires |h| == 14 && |e| == n && |st| == n && |d| == n && |ro| == n
    ensures Written(h + Shorts(e) + ShortBytes(0) + Shorts(st) + Shorts(d) + Shorts(ro) + Shorts(ga) + rest, 16 + 6 * n, ro)
  {
    var buf := h + Shorts(e) + ShortBytes(0) + Shorts(st) + Shorts(d);
    WrittenAfter(buf, 16 + 6 * n, ro);
    buf := buf + Shorts(ro);
    WrittenExtend(buf, 16 + 6 * n, ro, Shorts(ga));
    buf := buf + Shorts(ga);
    WrittenExtend(buf, 16 + 6 * n, ro, rest);
    buf := buf + rest;
  }

  /** Where the glyph id array column of a format 4 subtable sits. */
  lemma LayoutGlyphs(h: seq<byte>, n: nat, e: seq<int>, st: seq<int>, d: seq<int>, ro: seq<int>, ga: seq<int>, rest: seq<byte>)
    requires |h| == 14 && |e| == n && |st| == n && |d| == n && |ro| == n
    ensures Written(h + Shorts(e) + ShortBytes(0) + Shorts(st) + Shorts(d) + Shorts(ro) + Shorts(ga) + rest, 16 + 8 * n, ga)
  {
    var buf := h + Shorts(e) + ShortBytes(0) + Shorts(st) + Shorts(d) + Shorts(ro);
    WrittenAfter(buf, 16 + 8 * n, ga);
    buf := buf + Shorts(ga);
    WrittenExtend(buf, 16 + 8 * n, ga, rest);
    buf := buf + rest;
  }

  /** Bytes 6 and 7 of the format 4 head are segCountX2. */
  lemma HeaderSegCountX2(segCount: int, sectionLength: int)
    ensures Format4Header(segCount, sectionLength)[6] == ByteAt(segCount * 2, 1)
    ensures Format4Header(segCount, sectionLength)[7] == ByteAt(segCount * 2, 0)
  {
  }

  /** A segCountX2 field of 2n below 2^16 reads back as n segments. */
  lemma SegCountOf(sub: seq<byte>, n: nat)
    requires |sub| >= 8 && sub[6] == ByteAt(n * 2, 1) && sub[7] == ByteAt(n * 2, 0)
    requires n * 2 < TWO_16
    ensures SegCount(sub) == n
  {
    ShortOfShortBytes(n * 2);
    assert ShortAt(sub, 6) == ToInt16(n * 2);
    assert (ToInt16(n * 2) - n * 2) % TWO_16 == 0;
    assert U16(ToInt16(n * 2)) == n * 2;
  }

  /** The arrays parsed from a subtable whose columns are the shorts of e, st, d, ro and ga. */
  ghost predicate ColumnsRead(f: Format4, e: seq<int>, st: seq<int>, d: seq<int>, ro: seq<int>, ga: seq<int>)
  {
    WellSized(f) && f.segCount == |e| && |f.glyphIds| == 2 * |ga| &&
    ReadAs(f.endCount, e) && ReadAs(f.startCount, st) && ReadAs(f.idDelta, d) &&
    ReadAs(f.idRangeOffset, ro) && ReadAs(f.glyphIds, ga)
  }

  /** The arrays Parse reads when the length leaves room for the segment columns. */
  lemma ParseFields(sub: seq<byte>, length: int, n: nat, remains: nat)
    requires SegCount(sub) == n && length - 16 - 8 * n == remains
    ensures Parse(sub, length) == Success(Format4(n, ShortsAt(sub, 14, n), ShortsAt(sub, 16 + 2 * n, n),
      ShortsAt(sub, 16 + 4 * n, n), ShortsAt(sub, 16 + 6 * n, n), ShortsAt(sub, 16 + 8 * n, remains)))
  {
  }

  /** The encoder's segCountX2 reads back as the number of segments. */
  lemma EncodedSegCount(segs: seq<Segment>, rest: seq<byte>)
    requires SectionLength(segs) <= 0xFFFF
    ensures SegCount(Format4Bytes(segs) + rest) == |segs|
  {
    var n := |segs|;
    var sub := Format4Bytes(segs) + rest;
    var h := Format4Header(n, SectionLength(segs));
    HeaderSegCountX2(n, SectionLength(segs));
    assert sub[6] == h[6] && sub[7] == h[7];
    SegCountOf(sub, n);
  }

  /** Parse reads the encoder's endCount column back, cast to short. */
  lemma EncodedEnds(segs: seq<Segment>, rest: seq<byte>)
    requires SectionLength(segs) <= 0xFFFF
    ensures Parse(Format4Bytes(segs) + rest, SectionLength(segs)).Success?
    ensures ReadAs(Parse(Format4Bytes(segs) + rest, SectionLength(segs)).value.endCount, Ends(segs))
  {
    var n := |segs|;
    var sub := Format4Bytes(segs) + rest;
    var h := Format4Header(n, SectionLength(segs));
    EncodedSegCount(segs, rest);
    LayoutEnds(h, n, Ends(segs), Starts(segs), Deltas(segs), RangeOffsets(segs), GlyphArray(segs), rest);
    ParseFields(sub, SectionLength(segs), n, 2 * ArrayCount(segs));
    ColumnRead(sub, 14, Ends(segs), n);
  }

  /** Parse reads the encoder's startCount column back, cast to short. */
  lemma EncodedStarts(segs: seq<Segment>, rest: seq<byte>)
    requires SectionLength(segs) <= 0xFFFF
    ensures Parse(Format4Bytes(segs) + rest, SectionLength(segs)).Success?
    ensures ReadAs(Parse(Format4Bytes(segs) + rest, SectionLength(segs)).value.startCount, Starts(segs))
  {
    var n := |segs|;
    var sub := Format4Bytes(segs) + rest;
    var h := Format4Header(n, SectionLength(segs));
    EncodedSegCount(segs, rest);
    LayoutStarts(h, n, Ends(segs), Starts(segs), Deltas(segs), RangeOffsets(segs), GlyphArray(segs), rest);
    ParseFields(sub, SectionLength(segs), n, 2 * ArrayCount(segs));
    ColumnRead(sub, 16 + 2 * n, Starts(segs), n);
  }

  /** Parse reads the encoder's idDelta column back, cast to short. */
  lemma EncodedDeltas(segs: seq<Segment>, rest: seq<byte>)
    requires SectionLength(segs) <= 0xFFFF
    ensures Parse(Format4Bytes(segs) + rest, SectionLength(segs)).Success?
    ensures ReadAs(Parse(Format4Bytes(segs) + rest, SectionLength(segs)).value.idDelta, Deltas(segs))
  {
    var n := |segs|;
    var sub := Format4Bytes(segs) + rest;
    var h := Format4Header(n, SectionLength(segs));
    EncodedSegCount(segs, rest);
    LayoutDeltas(h, n, Ends(segs), Starts(segs), Deltas(segs), RangeOffsets(segs), GlyphArray(segs), rest);
    ParseFields(sub, SectionLength(segs), n, 2 * ArrayCount(segs));
    ColumnRead(sub, 16 + 4 * n, Deltas(segs), n);
  }

  /** Parse reads the encoder's idRangeOffset column back, cast to short. */
  lemma EncodedOffsets(segs: seq<Segment>, rest: seq<byte>)
    requires SectionLength(segs) <= 0xFFFF
    ensures Parse(Format4Bytes(segs) + rest, SectionLength(segs)).Success?
    ensures ReadAs(Parse(Format4Bytes(segs) + rest, SectionLength(segs)).value.idRangeOffset, RangeOffsets(segs))
  {
    var n := |segs|;
    var sub := Format4Bytes(segs) + rest;
    var h := Format4Header(n, SectionLength(segs));
    EncodedSegCount(segs, rest);
    LayoutOffsets(h, n, Ends(segs), Starts(segs), Deltas(segs), RangeOffsets(segs), GlyphArray(segs), rest);
    ParseFields(sub, SectionLength(segs), n, 2 * ArrayCount(segs));
    ColumnRead(sub, 16 + 6 * n, RangeOffsets(segs), n);
  }

  /** Parse reads the encoder's glyphIdArray column back, cast to short. */
  lemma EncodedGlyphs(segs: seq<Segment>, rest: seq<byte>)
    requires SectionLength(segs) <= 0xFFFF
    ensures Parse(Format4Bytes(segs) + rest, SectionLength(segs)).Success?
    ensures ReadAs(Parse(Format4Bytes(segs) + rest, SectionLength(segs)).value.glyphIds, GlyphArray(segs))
  {
    var n := |segs|;
    var sub := Format4Bytes(segs) + rest;
    var h := Format4Header(n, SectionLength(segs));
    EncodedSegCount(segs, rest);
    LayoutGlyphs(h, n, Ends(segs), Starts(segs), Deltas(segs), RangeOffsets(segs), GlyphArray(segs), rest);
    ParseFields(sub, SectionLength(segs), n, 2 * ArrayCount(segs));
    ColumnRead(sub, 16 + 8 * n, GlyphArray(segs), 2 * ArrayCount(segs));
  }

  /** Parsing the encoder's subtable, followed by anything, gives back its columns. */
  lemma ParseEncoded(segs: seq<Segment>, rest: seq<byte>)
    requires SectionLength(segs) <= 0xFFFF
    ensures Parse(Format4Bytes(segs) + rest, SectionLength(segs)).Success?
    ensures ColumnsRead(Parse(Format4Bytes(segs) + rest, SectionLength(segs)).value,
                        Ends(segs), Starts(segs), Deltas(segs), RangeOffsets(segs), GlyphArray(segs))
  {
    EncodedSegCount(segs, rest);
    EncodedEnds(segs, rest);
    EncodedStarts(segs, rest);
    EncodedDeltas(segs, rest);
    EncodedOffsets(segs, rest);
    EncodedGlyphs(segs, rest);
    ParseFields(Format4Bytes(segs) + rest, SectionLength(segs), |segs|, 2 * ArrayCount(segs));
  }
}
