/**
 * The round trip of the character map through the format 4 'cmap'
 * subtable: what ReadFormat4CMap reads from the table BuildCMap writes is
 * the map from each needed code point (and the terminating 0xFFFF) to the
 * glyph id BuildCMap stored for it.
 */
module CMapRoundTrip {
  import opened BigEndian
  import opened Outcome
  import opened Records
  import opened CMapSegments
  import opened CMapEncode
  import opened CMapDecode
  import opened CMapFacts

  // ---------------------------------------------------------------------
  // What the encoder lays out
  // ---------------------------------------------------------------------

  /**
   * Segment s was built from range rg, with `before` glyph ids of earlier
   * array segments in front of its own: it spans the range, holds the
   * mapped glyph id of each of its code points, and is a constant-delta
   * segment exactly when those ids allow it.
   */
  ghost predicate SegmentLaid(chars: map<int, CharacterData>, glyphs: seq<GlyphData>, s: Segment, rg: Range, before: nat)
  {
    s.start == rg.start && s.end == rg.end && |s.glyphIds| == rg.end - rg.start + 1 &&
    s.constDelta == ConstDelta(s.glyphIds, s.start) && (!s.constDelta ==> s.glyphsBefore == before) &&
    forall k | 0 <= k < |s.glyphIds| :: MappedGlyph(chars, glyphs, s.start + k) == Success(s.glyphIds[k])
  }

  /** Every segment was laid out from its range, after the array ids of the segments before it. */
  ghost predicate Laid(chars: map<int, CharacterData>, glyphs: seq<GlyphData>, segs: seq<Segment>, rgs: seq<Range>)
  {
    |segs| == |rgs| &&
    forall i | 0 <= i < |segs| :: SegmentLaid(chars, glyphs, segs[i], rgs[i], ArrayCount(segs[..i]))
  }

  /** The segment of one range is laid out from it. */
  lemma SegmentOfLaid(chars: map<int, CharacterData>, glyphs: seq<GlyphData>, rg: Range, before: nat)
    requires rg.start <= rg.end && SegmentOf(chars, glyphs, rg, before).Success?
    ensures SegmentLaid(chars, glyphs, SegmentOf(chars, glyphs, rg, before).value, rg, before)
  {
  }

  /** Laying out one more range after laid-out segments keeps them laid out. */
  lemma LaidSnoc(chars: map<int, CharacterData>, glyphs: seq<GlyphData>, prev: seq<Segment>, front: seq<Range>, s: Segment, rg: Range)
    requires Laid(chars, glyphs, prev, front) && SegmentLaid(chars, glyphs, s, rg, ArrayCount(prev))
    ensures Laid(chars, glyphs, prev + [s], front + [rg])
  {
    var segs, rgs := prev + [s], front + [rg];
    forall i | 0 <= i < |segs|
      ensures SegmentLaid(chars, glyphs, segs[i], rgs[i], ArrayCount(segs[..i]))
    {
      if i < |prev| {
        assert segs[..i] == prev[..i] && segs[i] == prev[i] && rgs[i] == front[i];
      } else {
        assert segs[..i] == prev;
      }
    }
  }

  /** Every segment BuildCMap collects is laid out from its range. */
  lemma {:induction false} SegmentsLaid(chars: map<int, CharacterData>, glyphs: seq<GlyphData>, rgs: seq<Range>)
    requires Ordered(rgs) && Segments(chars, glyphs, rgs).Success?
    ensures Laid(chars, glyphs, Segments(chars, glyphs, rgs).value, rgs)
    decreases |rgs|
  {
    if rgs != [] {
      var front := rgs[..|rgs| - 1];
      assert Ordered(front) by {
        forall i | 0 <= i < |front| ensures front[i].start <= front[i].end {
          assert front[i] == rgs[i];
        }
      }
      SegmentsLaid(chars, glyphs, front);
      var prev := Segments(chars, glyphs, front).value;
      var rg := rgs[|rgs| - 1];
      var s := SegmentOf(chars, glyphs, rg, ArrayCount(prev)).value;
      SegmentOfLaid(chars, glyphs, rg, ArrayCount(prev));
      assert Segments(chars, glyphs, rgs) == Success(prev + [s]);
      assert rgs == front + [rg];
      LaidSnoc(chars, glyphs, prev, front, s, rg);
    }
  }

  /** The ids of array segment i start at ArrayCount(segs[..i]) in the shared glyph id array. */
  lemma {:induction false} GlyphArrayAt(segs: seq<Segment>, i: nat, k: nat)
    requires i < |segs| && !segs[i].constDelta && k < |segs[i].glyphIds|
    ensures ArrayCount(segs[..i]) + k < ArrayCount(segs)
    ensures GlyphArray(segs)[ArrayCount(segs[..i]) + k] == segs[i].glyphIds[k]
    decreases |segs|
  {
    var front := segs[..|segs| - 1];
    if i == |segs| - 1 {
      assert segs[..i] == front;
    } else {
      GlyphArrayAt(front, i, k);
      assert front[..i] == segs[..i];
    }
  }

  // ---------------------------------------------------------------------
  // What the decoder reads back, segment by segment
  // ---------------------------------------------------------------------

  /** A short is its own cast. */
  lemma ShortCast(x: int)
    requires IsInt16(x)
    ensures ToInt16(x) == x
  {
    ToInt16Unique(x, x);
  }

  /** Casting to short depends only on the value modulo 2^16. */
  lemma ShortCastCongruent(a: int, b: int)
    requires (a - b) % TWO_16 == 0
    ensures ToInt16(a) == ToInt16(b)
  {
    var r := ToInt16(b);
    assert (r - a) % TWO_16 == 0 by {
      assert (r - b) % TWO_16 == 0;
      assert r - a == (r - b) - (a - b);
    }
    ToInt16Unique(r, a);
  }

  /** An unsigned 16-bit value comes back from its cast to short by `& 0xFFFF`. */
  lemma U16OfShort(x: int)
    requires 0 <= x < TWO_16
    ensures U16(ToInt16(x)) == x
  {
  }

  /** Every glyph id BuildCMap stores is a short. */
  lemma MappedGlyphShort(chars: map<int, CharacterData>, glyphs: seq<GlyphData>, ch: int)
    requires MappedGlyph(chars, glyphs, ch).Success?
    ensures IsInt16(MappedGlyph(chars, glyphs, ch).value)
  {
  }

  /**
   * Segment i as the encoder leaves it: code points within 0..0xFFFF, one
   * short glyph id per code point, constant-delta exactly when the ids
   * allow it, and an array segment's ids after those of the array
   * segments before it.
   */
  ghost predicate Encodable(segs: seq<Segment>, i: nat)
    requires i < |segs|
  {
    var s := segs[i];
    0 <= s.start <= s.end < TWO_16 && |s.glyphIds| == s.end - s.start + 1 &&
    s.constDelta == ConstDelta(s.glyphIds, s.start) &&
    (!s.constDelta ==> s.glyphsBefore == ArrayCount(segs[..i])) &&
    forall k | 0 <= k < |s.glyphIds| :: IsInt16(s.glyphIds[k])
  }

  /** The columns the decoder parsed from the encoder's subtable. */
  ghost predicate ParsedFrom(f: Format4, segs: seq<Segment>)
  {
    ColumnsRead(f, Ends(segs), Starts(segs), Deltas(segs), RangeOffsets(segs), GlyphArray(segs))
  }

  /** A constant-delta segment decodes each code point to its id by code point plus idDelta. */
  lemma ConstSegmentDecodes(f: Format4, segs: seq<Segment>, i: nat, k: nat)
    requires ParsedFrom(f, segs)
    requires i < |segs| && Encodable(segs, i) && segs[i].constDelta && k < |segs[i].glyphIds|
    ensures CodeGlyph(f, i, segs[i].start + k) == Success(segs[i].glyphIds[k])
  {
    var s := segs[i];
    var ids := s.glyphIds;
    assert RangeOffsets(segs)[i] == 0 && f.idRangeOffset[i] == ToInt16(0);
    ShortCast(0);
    assert HalfOffset(f.idRangeOffset[i]) == 0;
    var x := ids[0] - s.start;
    assert Deltas(segs)[i] == x && f.idDelta[i] == ToInt16(x);
    var ch := s.start + k;
    assert ids[k] == ch + x;
    ShortCastCongruent(ch + f.idDelta[i], ch + x);
    ShortCast(ids[k]);
  }

  /** A lookup through the glyph id array of a segment whose idDelta is 0 yields the stored id. */
  lemma ArrayLookup(f: Format4, i: nat, ch: int, index: int, id: int)
    requires WellSized(f) && i < f.segCount && f.idDelta[i] == 0
    requires HalfOffset(f.idRangeOffset[i]) != 0
    requires index == ch - U16(f.startCount[i]) + HalfOffset(f.idRangeOffset[i]) - (f.segCount - i)
    requires 0 <= index < |f.glyphIds| && f.glyphIds[index] == id && IsInt16(id)
    ensures CodeGlyph(f, i, ch) == Success(id)
  {
    ShortCast(id);
  }

  /** The columns of an array segment: its start, a zero idDelta and the offset to its first id. */
  lemma ArrayColumns(f: Format4, segs: seq<Segment>, i: nat)
    requires ParsedFrom(f, segs) && SectionLength(segs) <= 0xFFFF
    requires i < |segs| && Encodable(segs, i) && !segs[i].constDelta && |segs[i].glyphIds| > 0
    ensures U16(f.startCount[i]) == segs[i].start && f.idDelta[i] == 0
    ensures HalfOffset(f.idRangeOffset[i]) == |segs| - i + segs[i].glyphsBefore
  {
    var s := segs[i];
    var n := |segs|;
    GlyphArrayAt(segs, i, 0);
    var raw := RangeOffsets(segs)[i];
    assert raw == 2 * (n - i + s.glyphsBefore) && 0 < raw < TWO_16;
    assert f.idRangeOffset[i] == ToInt16(raw);
    U16OfShort(raw);
    U16OfShort(s.start);
    assert f.startCount[i] == ToInt16(Starts(segs)[i]);
    assert Deltas(segs)[i] == 0 && f.idDelta[i] == ToInt16(0);
    ShortCast(0);
  }

  /**
   * In a subtable the encoder wrote in fewer than 0x8000 bytes, every
   * idRangeOffset is below 0x8000, so halving it as a signed short, as
   * ReadFormat4CMap does, gives the unsigned half the decoder uses.
   */
  lemma AsWrittenOffset(f: Format4, segs: seq<Segment>, i: nat)
    requires ParsedFrom(f, segs) && SectionLength(segs) < 0x8000
    requires i < |segs| && Encodable(segs, i)
    ensures HalfOffsetAsWritten(f.idRangeOffset[i]) == HalfOffset(f.idRangeOffset[i])
  {
    var s := segs[i];
    var raw := RangeOffsets(segs)[i];
    if !s.constDelta {
      GlyphArrayAt(segs, i, 0);
      assert raw == 2 * (|segs| - i + s.glyphsBefore) <= 2 * |segs| + 2 * ArrayCount(segs);
    }
    assert 0 <= raw < 0x8000;
    assert f.idRangeOffset[i] == ToInt16(raw);
    ShortCast(raw);
    HalfOffsetAgrees(raw);
  }

  /** An array segment decodes each code point to the id stored for it in the glyph id array. */
  lemma ArraySegmentDecodes(f: Format4, segs: seq<Segment>, i: nat, k: nat)
    requires ParsedFrom(f, segs) && SectionLength(segs) <= 0xFFFF
    requires i < |segs| && Encodable(segs, i) && !segs[i].constDelta && k < |segs[i].glyphIds|
    ensures CodeGlyph(f, i, segs[i].start + k) == Success(segs[i].glyphIds[k])
  {
    ArrayColumns(f, segs, i);
    GlyphArrayAt(segs, i, k);
    assert f.glyphIds[segs[i].glyphsBefore + k] == ToInt16(GlyphArray(segs)[segs[i].glyphsBefore + k]);
    ShortCast(segs[i].glyphIds[k]);
    ArrayLookup(f, i, segs[i].start + k, segs[i].glyphsBefore + k, segs[i].glyphIds[k]);
  }

  // ---------------------------------------------------------------------
  // The character map the decoder builds
  // ---------------------------------------------------------------------

  /** Where the id of code point ch sits among segment s's ids. */
  function IdIndex(s: Segment, ch: int): int
  {
    ch - s.start
  }

  /** The entries added for the first n code points of segment s. */
  ghost function CodesMap(s: Segment, n: nat): map<int, CharacterData>
    requires n <= |s.glyphIds|
  {
    map ch | s.start <= ch < s.start + n :: CharacterData(s.glyphIds[IdIndex(s, ch)], false)
  }

  /** The entries added for all code points of all segments, in order. */
  ghost function SegmentsMap(segs: seq<Segment>): map<int, CharacterData>
  {
    if segs == [] then map[]
    else
      var last := segs[|segs| - 1];
      SegmentsMap(segs[..|segs| - 1]) + CodesMap(last, |last.glyphIds|)
  }

  /** Each segment holds one glyph id per code point. */
  ghost predicate Spanned(segs: seq<Segment>)
  {
    forall i | 0 <= i < |segs| :: |segs[i].glyphIds| == segs[i].end - segs[i].start + 1
  }

  /** The segments' code point ranges increase strictly. */
  ghost predicate Increasing(segs: seq<Segment>)
  {
    forall i, j | 0 <= i < j < |segs| :: segs[i].end < segs[j].start
  }

  /** Segment i decodes: its start and end read back, and each code point gives its glyph id. */
  ghost predicate Decodes(f: Format4, segs: seq<Segment>, i: nat)
    requires WellSized(f) && f.segCount == |segs| && i < |segs|
  {
    U16(f.startCount[i]) == segs[i].start && CodeCount(f, i) == |segs[i].glyphIds| &&
    forall k | 0 <= k < |segs[i].glyphIds| :: CodeGlyph(f, i, segs[i].start + k) == Success(segs[i].glyphIds[k])
  }

  /** The entries of n code points are those of n - 1 and one more. */
  lemma CodesMapSnoc(s: Segment, n: nat, base: map<int, CharacterData>)
    requires 0 < n <= |s.glyphIds|
    ensures (base + CodesMap(s, n - 1))[s.start + n - 1 := CharacterData(s.glyphIds[n - 1], false)] == base + CodesMap(s, n)
  {
    var ch := s.start + n - 1;
    assert CodesMap(s, n) == CodesMap(s, n - 1)[ch := CharacterData(s.glyphIds[n - 1], false)];
  }

  /** Adding the first n code points of a segment above every key present adds exactly their entries. */
  lemma {:induction false} AddCodesMap(f: Format4, i: nat, s: Segment, n: nat, base: map<int, CharacterData>)
    requires WellSized(f) && i < f.segCount && U16(f.startCount[i]) == s.start
    requires n <= |s.glyphIds|
    requires forall k | 0 <= k < n :: CodeGlyph(f, i, s.start + k) == Success(s.glyphIds[k])
    requires forall ch | ch in base :: ch < s.start
    ensures AddCodes(f, i, n, base) == Success(base + CodesMap(s, n))
    decreases n
  {
    if n > 0 {
      AddCodesMap(f, i, s, n - 1, base);
      var prev := base + CodesMap(s, n - 1);
      var ch := s.start + n - 1;
      assert ch !in prev;
      assert CodeGlyph(f, i, ch) == Success(s.glyphIds[n - 1]);
      assert AddCodes(f, i, n, base) == AddCode(f, i, ch, prev);
      assert AddCode(f, i, ch, prev) == Success(prev[ch := CharacterData(s.glyphIds[n - 1], false)]);
      CodesMapSnoc(s, n, base);
    } else {
      assert base + CodesMap(s, 0) == base;
    }
  }

  /** The keys of SegmentsMap are the code points of the segments. */
  lemma {:induction false} SegmentsMapKeys(segs: seq<Segment>)
    requires Spanned(segs)
    ensures forall ch :: ch in SegmentsMap(segs) <==> exists i :: 0 <= i < |segs| && segs[i].start <= ch <= segs[i].end
    decreases |segs|
  {
    if segs != [] {
      var front := segs[..|segs| - 1];
      var last := segs[|segs| - 1];
      assert Spanned(front) by {
        forall i | 0 <= i < |front| ensures |front[i].glyphIds| == front[i].end - front[i].start + 1 {
          assert front[i] == segs[i];
        }
      }
      SegmentsMapKeys(front);
      forall ch
        ensures ch in SegmentsMap(segs) <==> exists i :: 0 <= i < |segs| && segs[i].start <= ch <= segs[i].end
      {
        if ch in SegmentsMap(segs) {
          if ch in SegmentsMap(front) {
            var i :| 0 <= i < |front| && front[i].start <= ch <= front[i].end;
            assert segs[i] == front[i];
          } else {
            assert segs[|segs| - 1].start <= ch <= segs[|segs| - 1].end;
          }
        }
        if exists i :: 0 <= i < |segs| && segs[i].start <= ch <= segs[i].end {
          var i :| 0 <= i < |segs| && segs[i].start <= ch <= segs[i].end;
          if i < |front| {
            assert front[i] == segs[i];
          }
        }
      }
    }
  }

  /** Prefixes of spanned, increasing segments are spanned and increasing. */
  lemma PrefixShape(segs: seq<Segment>, m: nat)
    requires m <= |segs| && Spanned(segs) && Increasing(segs)
    ensures Spanned(segs[..m]) && Increasing(segs[..m])
  {
    var front := segs[..m];
    forall i | 0 <= i < m ensures front[i] == segs[i] {
    }
  }

  /** Adding a later segment's code points keeps an earlier entry. */
  lemma SnocBefore(segs: seq<Segment>, ch: int, v: CharacterData)
    requires 0 < |segs| && ch < segs[|segs| - 1].start
    requires var before := SegmentsMap(segs[..|segs| - 1]); ch in before && before[ch] == v
    ensures ch in SegmentsMap(segs) && SegmentsMap(segs)[ch] == v
  {
    var last := segs[|segs| - 1];
    assert SegmentsMap(segs) == SegmentsMap(segs[..|segs| - 1]) + CodesMap(last, |last.glyphIds|);
  }

  /** Adding a segment's code points maps code point k of it to its id. */
  lemma SnocLast(segs: seq<Segment>, k: nat)
    requires 0 < |segs| && k < |segs[|segs| - 1].glyphIds|
    ensures var last := segs[|segs| - 1];
      last.start + k in SegmentsMap(segs) && SegmentsMap(segs)[last.start + k] == CharacterData(last.glyphIds[k], false)
  {
    var last := segs[|segs| - 1];
    assert SegmentsMap(segs) == SegmentsMap(segs[..|segs| - 1]) + CodesMap(last, |last.glyphIds|);
  }

  /** Code point k of segment i, which lies before every later segment, maps to its glyph id in SegmentsMap. */
  lemma {:induction false} SegmentsMapAt(segs: seq<Segment>, i: nat, k: nat)
    requires i < |segs| && k < |segs[i].glyphIds|
    requires forall j | i < j < |segs| :: segs[i].start + k < segs[j].start
    ensures segs[i].start + k in SegmentsMap(segs)
    ensures SegmentsMap(segs)[segs[i].start + k] == CharacterData(segs[i].glyphIds[k], false)
    decreases |segs|
  {
    if i < |segs| - 1 {
      var front := segs[..|segs| - 1];
      assert front[i] == segs[i];
      assert forall j | i < j < |front| :: front[j] == segs[j];
      SegmentsMapAt(front, i, k);
      SnocBefore(segs, segs[i].start + k, CharacterData(segs[i].glyphIds[k], false));
    } else {
      SnocLast(segs, k);
    }
  }

  /** Every key of the first m segments lies below the start of segment m. */
  lemma KeysBelow(segs: seq<Segment>, m: nat)
    requires Spanned(segs) && Increasing(segs) && m < |segs|
    ensures forall ch | ch in SegmentsMap(segs[..m]) :: ch < segs[m].start
  {
    var front := segs[..m];
    PrefixShape(segs, m);
    SegmentsMapKeys(front);
    forall ch | ch in SegmentsMap(front)
      ensures ch < segs[m].start
    {
      var i :| 0 <= i < |front| && front[i].start <= ch <= front[i].end;
      assert front[i] == segs[i];
    }
  }

  /** Adding the first m segments to an empty map gives the entries of their code points. */
  lemma {:induction false} AddSegmentsMap(f: Format4, segs: seq<Segment>, m: nat)
    requires AllDecode(f, segs) && m <= |segs| && Spanned(segs) && Increasing(segs)
    ensures AddSegments(f, m, map[]) == Success(SegmentsMap(segs[..m]))
    decreases m
  {
    if m > 0 {
      AddSegmentsMap(f, segs, m - 1);
      var front := segs[..m - 1];
      var s := segs[m - 1];
      assert segs[..m][..m - 1] == front && segs[..m][m - 1] == s;
      assert SegmentsMap(segs[..m]) == SegmentsMap(front) + CodesMap(s, |s.glyphIds|);
      KeysBelow(segs, m - 1);
      assert Decodes(f, segs, m - 1);
      AddCodesMap(f, m - 1, s, |s.glyphIds|, SegmentsMap(front));
    } else {
      assert segs[..0] == [];
    }
  }

  // ---------------------------------------------------------------------
  // The round trip of the format 4 subtable
  // ---------------------------------------------------------------------

  /** The two bytes WriteShort emits for v, read back by ShortAt, are (short)v. */
  lemma ShortAtOf(sub: seq<byte>, x: int, v: int)
    requires 0 <= x && x + 2 <= |sub| && sub[x] == ByteAt(v, 1) && sub[x + 1] == ByteAt(v, 0)
    ensures ShortAt(sub, x) == ToInt16(v)
  {
    ShortAtInRange(sub, x);
    ShortOfShortBytes(v);
  }

  /** The subtable's format field reads 4 and its length field the subtable's length. */
  lemma EncodedHead(segs: seq<Segment>, rest: seq<byte>)
    requires SectionLength(segs) <= 0xFFFF
    ensures ShortAt(Format4Bytes(segs) + rest, 0) == 4
    ensures U16(ShortAt(Format4Bytes(segs) + rest, 2)) == SectionLength(segs)
  {
    var sub := Format4Bytes(segs) + rest;
    var h := Format4Header(|segs|, SectionLength(segs));
    assert |sub| >= 14 && sub == h + (sub[14..]);
    HeadFields(sub, h, SectionLength(segs));
  }

  /** Bytes that start with the short 4 and a length read back as format 4 and that length. */
  lemma HeadFields(sub: seq<byte>, h: seq<byte>, len: int)
    requires 0 <= len < TWO_16 && 4 <= |h| <= |sub| && sub == h + sub[|h|..]
    requires h[..4] == ShortBytes(4) + ShortBytes(len)
    ensures ShortAt(sub, 0) == 4 && U16(ShortAt(sub, 2)) == len
  {
    assert sub[0] == h[0] && sub[1] == h[1] && sub[2] == h[2] && sub[3] == h[3];
    assert h[0] == ShortBytes(4)[0] && h[1] == ShortBytes(4)[1];
    assert h[2] == ShortBytes(len)[0] && h[3] == ShortBytes(len)[1];
    ShortAtOf(sub, 0, 4);
    ShortCast(4);
    ShortAtOf(sub, 2, len);
    U16OfShort(len);
  }

  /** Every segment of a spanned subtable within the length limit decodes. */
  lemma SegmentDecodes(f: Format4, segs: seq<Segment>, i: nat)
    requires ParsedFrom(f, segs) && SectionLength(segs) <= 0xFFFF
    requires i < |segs| && Encodable(segs, i)
    ensures Decodes(f, segs, i)
  {
    var s := segs[i];
    assert f.startCount[i] == ToInt16(Starts(segs)[i]) && f.endCount[i] == ToInt16(Ends(segs)[i]);
    U16OfShort(s.start);
    U16OfShort(s.end);
    forall k | 0 <= k < |s.glyphIds|
      ensures CodeGlyph(f, i, s.start + k) == Success(s.glyphIds[k])
    {
      if s.constDelta {
        ConstSegmentDecodes(f, segs, i, k);
      } else {
        ArraySegmentDecodes(f, segs, i, k);
      }
    }
  }

  /**
   * ReadFormat4CMap on the subtable BuildCMap writes for segments it can
   * encode, followed by anything, adds exactly the segments' code points,
   * each with its glyph id.
   */
  lemma Format4RoundTrip(segs: seq<Segment>, rest: seq<byte>)
    requires SectionLength(segs) <= 0xFFFF && Spanned(segs) && Increasing(segs)
    requires forall i | 0 <= i < |segs| :: Encodable(segs, i)
    ensures Decoded(Format4Bytes(segs) + rest, SectionLength(segs), map[]) == Success(SegmentsMap(segs))
  {
    SegmentsDecode(segs, rest);
    DecodedFrom(Format4Bytes(segs) + rest, SectionLength(segs), segs);
  }

  /** The subtable parses, and every segment decodes from the columns read. */
  ghost predicate ParsesInto(sub: seq<byte>, length: int, segs: seq<Segment>)
  {
    Parse(sub, length).Success? && AllDecode(Parse(sub, length).value, segs)
  }

  /** The columns have one entry per segment, and every segment decodes from them. */
  ghost predicate AllDecode(f: Format4, segs: seq<Segment>)
  {
    WellSized(f) && f.segCount == |segs| && forall i | 0 <= i < |segs| :: Decodes(f, segs, i)
  }

  /** A subtable that parses into columns every segment decodes from adds the segments' code points. */
  lemma DecodedFrom(sub: seq<byte>, length: int, segs: seq<Segment>)
    requires Spanned(segs) && Increasing(segs) && ParsesInto(sub, length, segs)
    ensures Decoded(sub, length, map[]) == Success(SegmentsMap(segs))
  {
    var f := Parse(sub, length).value;
    AddAllSegments(f, segs);
  }

  // ---------------------------------------------------------------------
  // From the character map to the character map
  // ---------------------------------------------------------------------

  /** Code point ch lies in one of the ranges. */
  ghost predicate InRanges(rgs: seq<Range>, ch: int)
  {
    exists i :: 0 <= i < |rgs| && rgs[i].start <= ch <= rgs[i].end
  }

  /** The ranges BuildCMap encodes for code points up to maxChar <= 0xFFFF lie in 1..0xFFFF. */
  lemma RangesBounded(mask: set<int>, maxChar: int)
    requires 0 <= maxChar <= 0xFFFF
    ensures var rgs := SegmentRanges(mask, maxChar);
      forall i | 0 <= i < |rgs| :: 1 <= rgs[i].start <= rgs[i].end <= 0xFFFF
  {
    RunsMaximal(mask, maxChar);
    var rs := Runs(mask, maxChar);
    var rgs := SegmentRanges(mask, maxChar);
    forall i | 0 <= i < |rgs|
      ensures 1 <= rgs[i].start <= rgs[i].end <= 0xFFFF
    {
      if i < |rs| {
        assert rgs[i] == rs[i];
      }
    }
  }

  /** The ranges BuildCMap encodes increase strictly. */
  lemma RangesIncrease(mask: set<int>, maxChar: int)
    requires 0 <= maxChar <= 0xFFFF
    ensures var rgs := SegmentRanges(mask, maxChar);
      forall i, j | 0 <= i < j < |rgs| :: rgs[i].end < rgs[j].start
  {
    RunsMaximal(mask, maxChar);
    var rs := Runs(mask, maxChar);
    var rgs := SegmentRanges(mask, maxChar);
    forall i, j | 0 <= i < j < |rgs|
      ensures rgs[i].end < rgs[j].start
    {
      assert rgs[i] == rs[i];
      if j < |rs| {
        assert rgs[j] == rs[j];
      }
    }
  }

  /** Every code point of the ranges BuildCMap encodes is needed and from 1 on, or is 0xFFFF. */
  lemma RangesWithin(mask: set<int>, maxChar: int)
    requires 0 <= maxChar <= 0xFFFF
    ensures var rgs := SegmentRanges(mask, maxChar);
      forall ch | InRanges(rgs, ch) :: (1 <= ch && ch in mask) || ch == 0xFFFF
  {
    RunsMaximal(mask, maxChar);
    var rs := Runs(mask, maxChar);
    var rgs := SegmentRanges(mask, maxChar);
    forall ch | InRanges(rgs, ch)
      ensures (1 <= ch && ch in mask) || ch == 0xFFFF
    {
      var i :| 0 <= i < |rgs| && rgs[i].start <= ch <= rgs[i].end;
      if i < |rs| {
        assert rgs[i] == rs[i];
      }
    }
  }

  /** The ranges BuildCMap encodes hold every needed code point from 1 on, and 0xFFFF. */
  lemma RangesReach(mask: set<int>, maxChar: int)
    requires 0 <= maxChar <= 0xFFFF && (maxChar == 0 || maxChar in mask)
    requires forall ch | ch in mask :: ch <= maxChar
    ensures var rgs := SegmentRanges(mask, maxChar);
      forall ch | (1 <= ch && ch in mask) || ch == 0xFFFF :: InRanges(rgs, ch)
  {
    RunsMaximal(mask, maxChar);
    var rs := Runs(mask, maxChar);
    var rgs := SegmentRanges(mask, maxChar);
    forall ch | (1 <= ch && ch in mask) || ch == 0xFFFF
      ensures InRanges(rgs, ch)
    {
      if (1 <= ch && ch in mask) || (ch == 0xFFFF && maxChar == 0xFFFF) {
        assert 1 <= ch <= maxChar && ch in mask;
        var i :| 0 <= i < |rs| && rs[i].start <= ch <= rs[i].end;
        assert rgs[i] == rs[i];
      } else {
        assert rgs[|rs|] == Range(0xFFFF, 0xFFFF);
      }
    }
  }

  /** The segments laid out from such ranges can be encoded, and span the same code points. */
  lemma SegmentsShape(chars: map<int, CharacterData>, glyphs: seq<GlyphData>, segs: seq<Segment>, rgs: seq<Range>)
    requires Laid(chars, glyphs, segs, rgs)
    requires forall i | 0 <= i < |rgs| :: 1 <= rgs[i].start <= rgs[i].end <= 0xFFFF
    requires forall i, j | 0 <= i < j < |rgs| :: rgs[i].end < rgs[j].start
    ensures Spanned(segs) && Increasing(segs)
    ensures forall i | 0 <= i < |segs| :: Encodable(segs, i)
  {
    forall i | 0 <= i < |segs|
      ensures Encodable(segs, i)
    {
      var s := segs[i];
      assert SegmentLaid(chars, glyphs, s, rgs[i], ArrayCount(segs[..i]));
      forall k | 0 <= k < |s.glyphIds|
        ensures IsInt16(s.glyphIds[k])
      {
        assert MappedGlyph(chars, glyphs, s.start + k) == Success(s.glyphIds[k]);
        MappedGlyphShort(chars, glyphs, s.start + k);
      }
    }
    assert Increasing(segs) by {
      forall i, j | 0 <= i < j < |segs|
        ensures segs[i].end < segs[j].start
      {
        assert SegmentLaid(chars, glyphs, segs[i], rgs[i], ArrayCount(segs[..i]));
        assert SegmentLaid(chars, glyphs, segs[j], rgs[j], ArrayCount(segs[..j]));
      }
    }
  }

  /** The table parsed from the encoded segments, followed by anything, decodes each segment to its code points and ids. */
  lemma SegmentsDecode(segs: seq<Segment>, rest: seq<byte>)
    requires SectionLength(segs) <= 0xFFFF
    requires forall i | 0 <= i < |segs| :: Encodable(segs, i)
    ensures ParsesInto(Format4Bytes(segs) + rest, SectionLength(segs), segs)
  {
    ParseEncoded(segs, rest);
    var f := Parse(Format4Bytes(segs) + rest, SectionLength(segs)).value;
    forall i | 0 <= i < |segs|
      ensures Decodes(f, segs, i)
    {
      SegmentDecodes(f, segs, i);
    }
  }

  /** Adding every segment of the table adds the map of all of them. */
  lemma AddAllSegments(f: Format4, segs: seq<Segment>)
    requires AllDecode(f, segs) && Spanned(segs) && Increasing(segs)
    ensures AddSegments(f, |segs|, map[]) == Success(SegmentsMap(segs))
  {
    AddSegmentsMap(f, segs, |segs|);
    assert segs[..|segs|] == segs;
  }

  /** A successful CMapOf is the cmap header followed by the subtable of segments within the length limit. */
  lemma CMapOfParts(segsR: Result<seq<Segment>>)
    requires CMapOf(segsR).Success?
    ensures segsR.Success? && SectionLength(segsR.value) <= 0xFFFF
    ensures CMapOf(segsR).value[20..] == Format4Bytes(segsR.value)
  {
    assert CMapOf(segsR).value == CMapHeader() + Format4Bytes(segsR.value);
  }

  /** What CMapTable is made of when it succeeds. */
  lemma TableSegments(chars: map<int, CharacterData>, glyphs: seq<GlyphData>)
    requires CMapTable(chars, glyphs).Success?
    ensures Ordered(CMapRanges(chars)) && Segments(chars, glyphs, CMapRanges(chars)).Success?
    ensures var segs := Segments(chars, glyphs, CMapRanges(chars)).value;
      SectionLength(segs) <= 0xFFFF && CMapTable(chars, glyphs).value[20..] == Format4Bytes(segs)
  {
    SegmentRangesOrdered(NeededCodes(chars), MaxCode(NeededCodes(chars)));
    var segsR := Segments(chars, glyphs, CMapRanges(chars));
    assert CMapTable(chars, glyphs) == CMapOf(segsR);
    CMapOfParts(segsR);
  }

  /** The code points of the laid-out segments are those of their ranges. */
  lemma LaidKeys(chars: map<int, CharacterData>, glyphs: seq<GlyphData>, segs: seq<Segment>, rgs: seq<Range>)
    requires Laid(chars, glyphs, segs, rgs) && Spanned(segs)
    ensures forall ch :: ch in SegmentsMap(segs) <==> InRanges(rgs, ch)
  {
    SegmentsMapKeys(segs);
    forall ch
      ensures ch in SegmentsMap(segs) <==> InRanges(rgs, ch)
    {
      if i :| 0 <= i < |segs| && segs[i].start <= ch <= segs[i].end {
        assert SegmentLaid(chars, glyphs, segs[i], rgs[i], ArrayCount(segs[..i]));
      }
      if InRanges(rgs, ch) {
        var i :| 0 <= i < |rgs| && rgs[i].start <= ch <= rgs[i].end;
        assert SegmentLaid(chars, glyphs, segs[i], rgs[i], ArrayCount(segs[..i]));
      }
    }
  }

  /** Each entry of the laid-out segments' map holds the glyph id BuildCMap stored for its code point. */
  lemma LaidValues(chars: map<int, CharacterData>, glyphs: seq<GlyphData>, segs: seq<Segment>, rgs: seq<Range>)
    requires Laid(chars, glyphs, segs, rgs) && Spanned(segs) && Increasing(segs)
    ensures forall ch | ch in SegmentsMap(segs) ::
      MappedGlyph(chars, glyphs, ch).Success? &&
      SegmentsMap(segs)[ch] == CharacterData(MappedGlyph(chars, glyphs, ch).value, false)
  {
    SegmentsMapKeys(segs);
    forall ch | ch in SegmentsMap(segs)
      ensures MappedGlyph(chars, glyphs, ch).Success?
      ensures SegmentsMap(segs)[ch] == CharacterData(MappedGlyph(chars, glyphs, ch).value, false)
    {
      var i :| 0 <= i < |segs| && segs[i].start <= ch <= segs[i].end;
      var k := ch - segs[i].start;
      assert SegmentLaid(chars, glyphs, segs[i], rgs[i], ArrayCount(segs[..i]));
      SegmentsMapAt(segs, i, k);
    }
  }

  /** The largest needed code point of a character map within 0..0xFFFF is within 0..0xFFFF too. */
  lemma MaxCodeBelow(chars: map<int, CharacterData>)
    requires forall ch | ch in chars :: 0 <= ch < TWO_16
    ensures 0 <= MaxCode(NeededCodes(chars)) <= 0xFFFF
  {
    var mask := NeededCodes(chars);
    var m := MaxCode(mask);
    if m != 0 {
      assert m in mask;
    }
  }

  /** The ranges BuildCMap encodes for a character map within 0..0xFFFF. */
  lemma CMapRangesShape(chars: map<int, CharacterData>)
    requires forall ch | ch in chars :: 0 <= ch < TWO_16
    ensures var rgs := CMapRanges(chars);
      (forall i | 0 <= i < |rgs| :: 1 <= rgs[i].start <= rgs[i].end <= 0xFFFF) &&
      (forall i, j | 0 <= i < j < |rgs| :: rgs[i].end < rgs[j].start) &&
      (forall ch :: InRanges(rgs, ch) <==> (1 <= ch && ch in NeededCodes(chars)) || ch == 0xFFFF)
  {
    var mask := NeededCodes(chars);
    MaxCodeBelow(chars);
    RangesBounded(mask, MaxCode(mask));
    RangesIncrease(mask, MaxCode(mask));
    RangesWithin(mask, MaxCode(mask));
    RangesReach(mask, MaxCode(mask));
  }

  /** The segments of a successful CMapTable, with what the round trip needs of them. */
  lemma TableShape(chars: map<int, CharacterData>, glyphs: seq<GlyphData>)
    requires forall ch | ch in chars :: 0 <= ch < TWO_16
    requires CMapTable(chars, glyphs).Success?
    ensures Ordered(CMapRanges(chars)) && Segments(chars, glyphs, CMapRanges(chars)).Success?
    ensures var rgs := CMapRanges(chars);
      var segs := Segments(chars, glyphs, rgs).value;
      SectionLength(segs) <= 0xFFFF && CMapTable(chars, glyphs).value[20..] == Format4Bytes(segs) &&
      Laid(chars, glyphs, segs, rgs) && Spanned(segs) && Increasing(segs) &&
      (forall i | 0 <= i < |segs| :: Encodable(segs, i))
  {
    var rgs := CMapRanges(chars);
    TableSegments(chars, glyphs);
    CMapRangesShape(chars);
    SegmentsLaid(chars, glyphs, rgs);
    SegmentsShape(chars, glyphs, Segments(chars, glyphs, rgs).value, rgs);
  }

  /**
   * The source's own lookup agrees with the decoder's: when the subtable
   * BuildCMap writes is shorter than 0x8000 bytes, ReadFormat4CMap's
   * signed halving of idRangeOffset yields, for every segment and every
   * code point, the glyph index the unsigned halving of Decoded yields.
   */
  lemma CMapAsWrittenAgrees(chars: map<int, CharacterData>, glyphs: seq<GlyphData>, rest: seq<byte>)
    requires forall ch | ch in chars :: 0 <= ch < TWO_16
    requires CMapTable(chars, glyphs).Success?
    requires |CMapTable(chars, glyphs).value| - 20 < 0x8000
    ensures var sub := CMapTable(chars, glyphs).value[20..] + rest;
      Parse(sub, U16(ShortAt(sub, 2))).Success?
    ensures var sub := CMapTable(chars, glyphs).value[20..] + rest;
      var f := Parse(sub, U16(ShortAt(sub, 2))).value;
      forall i, ch | 0 <= i < f.segCount ::
        GlyphWithOffset(f, i, ch, HalfOffsetAsWritten(f.idRangeOffset[i])) == CodeGlyph(f, i, ch)
  {
    var rgs := CMapRanges(chars);
    TableShape(chars, glyphs);
    var segs := Segments(chars, glyphs, rgs).value;
    var sub := Format4Bytes(segs) + rest;
    Format4Length(segs);
    EncodedHead(segs, rest);
    ParseEncoded(segs, rest);
    var f := Parse(sub, SectionLength(segs)).value;
    forall i, ch | 0 <= i < f.segCount
      ensures GlyphWithOffset(f, i, ch, HalfOffsetAsWritten(f.idRangeOffset[i])) == CodeGlyph(f, i, ch)
    {
      AsWrittenOffset(f, segs, i);
    }
  }

  /**
   * The round trip of BuildCMap and ReadFormat4CMap: for a character map
   * whose code points are within 0..0xFFFF, reading the format 4 subtable
   * of the cmap table BuildCMap writes (at offset 20, followed by anything)
   * finds format 4 and adds exactly the needed code points from 1 on and
   * 0xFFFF, each with the glyph id BuildCMap stored for it.
   */
  lemma CMapRoundTrip(chars: map<int, CharacterData>, glyphs: seq<GlyphData>, rest: seq<byte>)
    requires forall ch | ch in chars :: 0 <= ch < TWO_16
    requires CMapTable(chars, glyphs).Success?
    ensures var sub := CMapTable(chars, glyphs).value[20..] + rest;
      ShortAt(sub, 0) == 4 && Decoded(sub, U16(ShortAt(sub, 2)), map[]).Success?
    ensures var sub := CMapTable(chars, glyphs).value[20..] + rest;
      var m := Decoded(sub, U16(ShortAt(sub, 2)), map[]).value;
      forall ch :: ch in m <==> (1 <= ch && ch in NeededCodes(chars)) || ch == 0xFFFF
    ensures var sub := CMapTable(chars, glyphs).value[20..] + rest;
      var m := Decoded(sub, U16(ShortAt(sub, 2)), map[]).value;
      forall ch | ch in m ::
        MappedGlyph(chars, glyphs, ch).Success? && m[ch] == CharacterData(MappedGlyph(chars, glyphs, ch).value, false)
  {
    var rgs := CMapRanges(chars);
    TableShape(chars, glyphs);
    CMapRangesShape(chars);
    var segs := Segments(chars, glyphs, rgs).value;
    EncodedHead(segs, rest);
    Format4RoundTrip(segs, rest);
    LaidKeys(chars, glyphs, segs, rgs);
    LaidValues(chars, glyphs, segs, rgs);
  }
}
