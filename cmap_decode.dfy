/**
 * OpenTypeFont.ReadFormat4CMap: reads a format 4 'cmap' subtable and adds
 * one CharacterData per code point of every segment to the character map.
 * The subtable is given as the bytes of the font from the subtable's
 * offset on (so that reads running past the subtable see whatever follows
 * it), and reads past the end of the font give zero bytes.
 */
module CMapDecode {
  import opened BigEndian
  import opened Outcome
  import opened Records

  /** The message of the ArgumentException ReadShorts throws for a negative count. */
  const SIZE_ERROR: string := "size"
  /** The message of the IndexOutOfRangeException of an array access. */
  const ARRAY_INDEX_ERROR: string := "Index was outside the bounds of the array."
  /** The message of the ArgumentException Dictionary.Add throws for a key already present. */
  const DUPLICATE_KEY: string := "An item with the same key has already been added."

  /** Byte p of the font from the subtable on, or 0 past its end. */
  function ByteOr0(sub: seq<byte>, p: int): byte
  {
    if 0 <= p < |sub| then sub[p] else 0
  }

  /** GetShort over the buffer a read at p fills. */
  function ShortAt(sub: seq<byte>, p: int): (r: int)
    ensures IsInt16(r)
  {
    ToInt16(ByteOr0(sub, p) as int * 0x100 + ByteOr0(sub, p + 1))
  }

  /** Within the font, ShortAt is GetShort. */
  lemma ShortAtInRange(sub: seq<byte>, p: int)
    requires 0 <= p && p + 2 <= |sub|
    ensures ShortAt(sub, p) == GetShort(sub, p)
  {
  }

  /** The n shorts ReadShorts returns from position p on. */
  function ShortsAt(sub: seq<byte>, p: int, n: nat): (r: seq<int>)
    ensures |r| == n && forall i | 0 <= i < n :: r[i] == ShortAt(sub, p + 2 * i)
  {
    seq(n, i requires 0 <= i < n => ShortAt(sub, p + 2 * i))
  }

  /** The arrays ReadFormat4CMap reads, all as signed shorts. */
  datatype Format4 = Format4(
    segCount: nat,
    endCount: seq<int>,
    startCount: seq<int>,
    idDelta: seq<int>,
    idRangeOffset: seq<int>,
    glyphIds: seq<int>)

  /** The four segment arrays hold segCount entries each. */
  predicate WellSized(f: Format4)
  {
    |f.endCount| == f.segCount && |f.startCount| == f.segCount &&
    |f.idDelta| == f.segCount && |f.idRangeOffset| == f.segCount
  }

  /** The unsigned value of a short (`& 0xFFFF`). */
  function U16(n: int): (r: int)
    ensures 0 <= r < TWO_16
  {
    n % TWO_16
  }

  /** segCount: half the unsigned segCountX2 field at offset 6. */
  function SegCount(sub: seq<byte>): nat
  {
    U16(ShortAt(sub, 6)) / 2
  }

  /**
   * The arrays of the subtable whose length field says length.  The glyph
   * id array is read with length - 16 - 8 * segCount as a count of SHORTS
   * although it is a count of bytes, so twice the array is read; a
   * negative count throws.
   */
  function Parse(sub: seq<byte>, length: int): (r: Result<Format4>)
    ensures r.Success? ==> WellSized(r.value) && r.value.segCount == SegCount(sub)
    ensures r.Failure? <==> length - 16 - 8 * SegCount(sub) < 0
  {
    var n := SegCount(sub);
    var lengthRemains := length - 16 - 8 * n;
    if lengthRemains < 0 then Failure(SIZE_ERROR)
    else
      Success(Format4(n,
        ShortsAt(sub, 14, n),
        ShortsAt(sub, 16 + 2 * n, n),
        ShortsAt(sub, 16 + 4 * n, n),
        ShortsAt(sub, 16 + 6 * n, n),
        ShortsAt(sub, 16 + 8 * n, lengthRemains)))
  }

  /** C#'s `a / 2` on int: the quotient truncated toward zero. */
  function Half(a: int): int
  {
    if a >= 0 then a / 2 else -((-a) / 2)
  }

  /**
   * `(short)(idRangeOffset[i] / 2)` as ReadFormat4CMap writes it: the stored
   * short is signed, so an offset of 0x8000 or more comes out negative.
   */
  function HalfOffsetAsWritten(raw: int): int
  {
    ToInt16(Half(raw))
  }

  /** Half the idRangeOffset read as the unsigned 16-bit value it is. */
  function HalfOffset(raw: int): (r: int)
    ensures 0 <= r < 0x8000
  {
    U16(raw) / 2
  }

  /** Below 0x8000 the two readings agree. */
  lemma HalfOffsetAgrees(raw: int)
    requires 0 <= raw < 0x8000
    ensures HalfOffsetAsWritten(raw) == HalfOffset(raw)
  {
    ToInt16Unique(raw / 2, raw / 2);
  }

  /**
   * The glyph index ReadFormat4CMap stores for code point ch of segment i,
   * given half its idRangeOffset: ch + idDelta when that is 0, otherwise the
   * glyph id array entry the offset points at, plus idDelta unless it is 0;
   * cast to short.
   */
  function GlyphWithOffset(f: Format4, i: nat, ch: int, rangeOffset: int): (r: Result<int>)
    requires WellSized(f) && i < f.segCount
    ensures r.Success? ==> IsInt16(r.value)
  {
    var start := U16(f.startCount[i]);
    var delta := f.idDelta[i];
    if rangeOffset == 0 then Success(ToInt16(ch + delta))
    else
      var index := ch - start + rangeOffset - (f.segCount - i);
      if !(0 <= index < |f.glyphIds|) then Failure(ARRAY_INDEX_ERROR)
      else
        var glyphIndex := f.glyphIds[index];
        Success(ToInt16(if glyphIndex != 0 then glyphIndex + delta else glyphIndex))
  }

  /** The glyph index of code point ch of segment i, reading idRangeOffset unsigned. */
  function CodeGlyph(f: Format4, i: nat, ch: int): (r: Result<int>)
    requires WellSized(f) && i < f.segCount
  {
    GlyphWithOffset(f, i, ch, HalfOffset(f.idRangeOffset[i]))
  }

  /** The subtable of a single segment, code point 5, whose idRangeOffset 0x8000 points past 0x3FFF glyph ids. */
  function FarOffsetExample(): (f: Format4)
    ensures WellSized(f) && f.segCount == 1
  {
    Format4(1, [5], [5], [0], [ToInt16(0x8000)], seq(0x4000, k => 7))
  }

  /**
   * Read as the source reads it, an idRangeOffset of 0x8000 turns into a
   * negative offset and the lookup of a glyph the subtable does map throws.
   */
  lemma FarOffsetAsWritten()
    ensures GlyphWithOffset(FarOffsetExample(), 0, 5, HalfOffsetAsWritten(FarOffsetExample().idRangeOffset[0])).Failure?
    ensures CodeGlyph(FarOffsetExample(), 0, 5) == Success(7)
  {
    var f := FarOffsetExample();
    assert f.idRangeOffset[0] == -0x8000;
    assert Half(-0x8000) == -0x4000;
    ToInt16Unique(-0x4000, -0x4000);
    assert HalfOffsetAsWritten(f.idRangeOffset[0]) == -0x4000;
    assert HalfOffset(f.idRangeOffset[0]) == 0x4000;
    assert f.glyphIds[0x3FFF] == 7;
    ToInt16Unique(7, 7);
  }

  /** Adding code point ch of segment i: its glyph first, then Dictionary.Add. */
  function AddCode(f: Format4, i: nat, ch: int, chars: map<int, CharacterData>): (r: Result<map<int, CharacterData>>)
    requires WellSized(f) && i < f.segCount
    ensures r.Success? ==> ch !in chars && CodeGlyph(f, i, ch).Success?
                           && r.value == chars[ch := CharacterData(CodeGlyph(f, i, ch).value, false)]
    ensures r.Failure? <==> CodeGlyph(f, i, ch).Failure? || ch in chars
  {
    var g := CodeGlyph(f, i, ch);
    if g.Failure? then Failure(g.error)
    else if ch in chars then Failure(DUPLICATE_KEY)
    else Success(chars[ch := CharacterData(g.value, false)])
  }

  /** The number of code points of segment i, start to end inclusive (none when end < start). */
  function CodeCount(f: Format4, i: nat): nat
    requires WellSized(f) && i < f.segCount
  {
    var start := U16(f.startCount[i]);
    var end := U16(f.endCount[i]);
    if end < start then 0 else end - start + 1
  }

  /** The first n code points of segment i added in increasing order, stopping at the first failure. */
  function AddCodes(f: Format4, i: nat, n: nat, chars: map<int, CharacterData>): Result<map<int, CharacterData>>
    requires WellSized(f) && i < f.segCount
  {
    if n == 0 then Success(chars)
    else
      var prev := AddCodes(f, i, n - 1, chars);
      if prev.Failure? then prev else AddCode(f, i, U16(f.startCount[i]) + n - 1, prev.value)
  }

  /** The first m segments added in order. */
  function AddSegments(f: Format4, m: nat, chars: map<int, CharacterData>): Result<map<int, CharacterData>>
    requires WellSized(f) && m <= f.segCount
  {
    if m == 0 then Success(chars)
    else
      var prev := AddSegments(f, m - 1, chars);
      if prev.Failure? then prev else AddCodes(f, m - 1, CodeCount(f, m - 1), prev.value)
  }

  /** What ReadFormat4CMap leaves in the character map, or the exception it throws. */
  function Decoded(sub: seq<byte>, length: int, chars: map<int, CharacterData>): Result<map<int, CharacterData>>
  {
    var f := Parse(sub, length);
    if f.Failure? then Failure(f.error) else AddSegments(f.value, f.value.segCount, chars)
  }

  /** Once adding the first k code points fails, adding more fails the same way. */
  lemma {:induction false} AddCodesFailure(f: Format4, i: nat, k: nat, n: nat, chars: map<int, CharacterData>)
    requires WellSized(f) && i < f.segCount && k <= n && AddCodes(f, i, k, chars).Failure?
    ensures AddCodes(f, i, n, chars) == AddCodes(f, i, k, chars)
    decreases n
  {
    if n > k {
      AddCodesFailure(f, i, k, n - 1, chars);
    }
  }

  /** Once adding the first j segments fails, adding all of them fails the same way. */
  lemma {:induction false} AddSegmentsFailure(f: Format4, j: nat, m: nat, chars: map<int, CharacterData>)
    requires WellSized(f) && j <= m <= f.segCount && AddSegments(f, j, chars).Failure?
    ensures AddSegments(f, m, chars) == AddSegments(f, j, chars)
    decreases m
  {
    if m > j {
      AddSegmentsFailure(f, j, m - 1, chars);
    }
  }

  /** OpenTypeFont.ReadShorts: size signed shorts from p on, or ArgumentException for a negative size. */
  method ReadShorts(sub: seq<byte>, p: int, size: int) returns (r: Result<seq<int>>)
    ensures size < 0 ==> r == Failure(SIZE_ERROR)
    ensures size >= 0 ==> r == Success(ShortsAt(sub, p, size))
  {
    if size < 0 {
      return Failure(SIZE_ERROR);
    }
    var arr: seq<int> := [];
    var offset := 0;
    while offset < size
      invariant 0 <= offset <= size
      invariant arr == ShortsAt(sub, p, offset)
    {
      arr := arr + [ShortAt(sub, p + 2 * offset)];
      offset := offset + 1;
    }
    r := Success(arr);
  }

  /** The reading half of ReadFormat4CMap: segCount, then the five arrays. */
  method ReadFormat4(sub: seq<byte>, length: int) returns (r: Result<Format4>)
    ensures r == Parse(sub, length)
  {
    var segCount := U16(ShortAt(sub, 6)) / 2;
    var endCount := ReadShorts(sub, 14, segCount);
    var startCount := ReadShorts(sub, 16 + 2 * segCount, segCount);
    var idDelta := ReadShorts(sub, 16 + 4 * segCount, segCount);
    var idRangeOffset := ReadShorts(sub, 16 + 6 * segCount, segCount);
    var lengthRemains := length - 16 - 8 * segCount;
    var glyphIds := ReadShorts(sub, 16 + 8 * segCount, lengthRemains);
    if glyphIds.Failure? {
      return Failure(glyphIds.error);
    }
    r := Success(Format4(segCount, endCount.value, startCount.value, idDelta.value, idRangeOffset.value, glyphIds.value));
  }

  /** ReadFormat4CMap's inner loop: every code point of segment i, in increasing order. */
  method AddSegmentCodes(f: Format4, i: nat, chars: map<int, CharacterData>) returns (r: Result<map<int, CharacterData>>)
    requires WellSized(f) && i < f.segCount
    ensures r == AddCodes(f, i, CodeCount(f, i), chars)
  {
    var start := U16(f.startCount[i]);
    var end := U16(f.endCount[i]);
    var rangeOffset := HalfOffset(f.idRangeOffset[i]);
    var delta := f.idDelta[i];
    var characters := chars;
    var ch := start;
    while ch <= end
      invariant start <= ch && (ch <= end + 1 || ch == start)
      invariant AddCodes(f, i, ch - start, chars) == Success(characters)
    {
      var glyphIndex: int;
      if rangeOffset == 0 {
        glyphIndex := ToInt16(ch + delta);
      } else {
        var index := ch - start + rangeOffset - (f.segCount - i);
        if !(0 <= index < |f.glyphIds|) {
          AddCodesFailure(f, i, ch - start + 1, CodeCount(f, i), chars);
          return Failure(ARRAY_INDEX_ERROR);
        }
        var g := f.glyphIds[index];
        if g != 0 {
          g := g + delta;
        }
        glyphIndex := ToInt16(g);
      }
      if ch in characters {
        AddCodesFailure(f, i, ch - start + 1, CodeCount(f, i), chars);
        return Failure(DUPLICATE_KEY);
      }
      characters := characters[ch := CharacterData(glyphIndex, false)];
      ch := ch + 1;
    }
    r := Success(characters);
  }

  /**
   * OpenTypeFont.ReadFormat4CMap: the character map after adding every code
   * point of every segment of the subtable, or the exception it throws.
   */
  method ReadFormat4CMap(sub: seq<byte>, length: int, chars: map<int, CharacterData>) returns (r: Result<map<int, CharacterData>>)
    ensures r == Decoded(sub, length, chars)
  {
    var parsed := ReadFormat4(sub, length);
    if parsed.Failure? {
      return Failure(parsed.error);
    }
    var f := parsed.value;
    var characters := chars;
    var i := 0;
    while i < f.segCount
      invariant 0 <= i <= f.segCount
      invariant AddSegments(f, i, chars) == Success(characters)
    {
      var added := AddSegmentCodes(f, i, characters);
      assert AddSegments(f, i + 1, chars) == added;
      if added.Failure? {
        AddSegmentsFailure(f, i + 1, f.segCount, chars);
        return Failure(added.error);
      }
      characters := added.value;
      i := i + 1;
    }
    assert Decoded(sub, length, chars) == AddSegments(f, f.segCount, chars);
    r := Success(characters);
  }
}
