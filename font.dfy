/**
 * The subsetting state of OpenTypeFont: the glyph list, the character map
 * and the counters ReindexGlyphs sets, with the operations that change
 * them in place — Play, ResolveCompositeGlyphsTT, ReindexGlyphs — and the
 * queries over them (CalculateAverageWeight, GetNewFirstIndex,
 * GetNewLastIndex, CanSubset).  Each method is proved to end in the state
 * the value-level definitions of modules Play, Composite and Reindex
 * describe, where the properties are proved.
 */
module Subsetting {
  import opened BigEndian
  import opened Outcome
  import opened Records
  import opened Play
  import opened Composite
  import opened Reindex
  import CMapDecode
  import CMapSegments

  /**
   * CanSubset: false when the OS/2 fsType's usage permissions (bits 0-3)
   * are 2 (restricted license embedding) or bit 8 (no subsetting) is set.
   * The masks `& 0xF` and `& 0x100` of a two's-complement int are the
   * Euclidean remainder by 16 and bit 0 of the floor quotient by 0x100.
   */
  function CanSubset(fsType: int): bool
  {
    fsType % 16 != 2 && (fsType / 0x100) % 2 == 0
  }

  /**
   * fsType is read with GetShort, sign-extended; the permission bits it
   * tests are those of the unsigned 16-bit field, so the sign extension
   * does not change the answer.
   */
  lemma CanSubsetUnsigned(fsType: int)
    ensures CanSubset(fsType) == CanSubset(fsType % TWO_16)
  {
    var u := fsType % TWO_16;
    var q := fsType / TWO_16;
    assert u % 16 == fsType % 16 by {
      assert fsType == 16 * (q * 4096 + u / 16) + u % 16;
      DivModUnique(fsType, 16, q * 4096 + u / 16, u % 16);
    }
    assert (u / 0x100) % 2 == (fsType / 0x100) % 2 by {
      var h := u / 0x100;
      assert fsType == 0x100 * (q * 0x100 + h) + u % 0x100;
      DivModUnique(fsType, 0x100, q * 0x100 + h, u % 0x100);
      assert q * 0x100 + h == 2 * (q * 0x80 + h / 2) + h % 2;
      DivModUnique(q * 0x100 + h, 2, q * 0x80 + h / 2, h % 2);
    }
  }

  class Font {
    /** The glyph list (List<GlyphData>; its length is fixed once read). */
    const glyphs: array<GlyphData>
    /** The character map read from the Unicode 'cmap' subtable. */
    var characters: map<int, CharacterData>
    /** Whether the font has CFF outlines (stringsCFF != null) and their strings' Needed flags. */
    const cff: bool
    const stringNeeded: array<bool>
    /** Whether the outlines are TrueType ('glyf'). */
    const trueTypeGlyphs: bool
    /** The OS/2 fsType. */
    const fsType: int
    var newGlyphCount: int
    var newVariableWidthCount: int

    constructor (gs: seq<GlyphData>, chars: map<int, CharacterData>, trueType: bool, strings: seq<bool>, cffOutlines: bool, fs: int)
      ensures glyphs[..] == gs && characters == chars && trueTypeGlyphs == trueType
      ensures stringNeeded[..] == strings && cff == cffOutlines && fsType == fs
      ensures newGlyphCount == 0 && newVariableWidthCount == 0
      ensures fresh(glyphs) && fresh(stringNeeded)
    {
      glyphs := new GlyphData[|gs|](i requires 0 <= i < |gs| => gs[i]);
      stringNeeded := new bool[|strings|](i requires 0 <= i < |strings| => strings[i]);
      characters := chars;
      trueTypeGlyphs := trueType;
      cff := cffOutlines;
      fsType := fs;
      newGlyphCount := 0;
      newVariableWidthCount := 0;
    }

    /** The part of the state Play changes. */
    function State(): Playing
      reads this, glyphs
    {
      Playing(characters, glyphs[..])
    }

    /** Play(char): marks the character and, when its glyph index names a glyph, that glyph. */
    method PlayChar(ch: CodeUnit) returns (found: bool)
      modifies this, glyphs
      ensures State() == PlayOne(old(State()), ch)
      ensures found == Found(old(State()), ch)
      ensures newGlyphCount == old(newGlyphCount) && newVariableWidthCount == old(newVariableWidthCount)
    {
      found := false;
      if ch in characters {
        var chData := characters[ch];
        characters := characters[ch := chData.(needed := true)];
        if 0 <= chData.glyphIndex < glyphs.Length {
          glyphs[chData.glyphIndex] := glyphs[chData.glyphIndex].(needed := true);
          found := true;
        }
      }
    }

    /** Play(string): plays every character of the text in order. */
    method PlayText(text: seq<CodeUnit>)
      modifies this, glyphs
      ensures State() == PlayAll(old(State()), text)
      ensures PlayedFrom(old(State()), text, State())
      ensures newGlyphCount == old(newGlyphCount) && newVariableWidthCount == old(newVariableWidthCount)
    {
      var i := 0;
      while i < |text|
        invariant 0 <= i <= |text|
        invariant State() == PlayAll(old(State()), text[..i])
        invariant newGlyphCount == old(newGlyphCount) && newVariableWidthCount == old(newVariableWidthCount)
      {
        var _ := PlayChar(text[i]);
        assert text[..i + 1][..i] == text[..i];
        i := i + 1;
      }
      assert text[..i] == text;
      PlayAllMarks(old(State()), text);
    }

    /**
     * ResolveCompositeGlyphsTT: one pass over the glyphs; a needed glyph
     * whose numberOfContours is negative is flagged composite and the
     * components its records name are marked needed.  A component index
     * past the glyph list makes the source throw.
     */
    method ResolveCompositeGlyphs(font: seq<byte>) returns (ok: bool)
      modifies glyphs
      ensures ok == Resolved(old(glyphs[..]), font, 0).Success?
      ensures ok ==> glyphs[..] == Resolved(old(glyphs[..]), font, 0).value
    {
      var i := 0;
      while i < glyphs.Length
        invariant 0 <= i <= glyphs.Length
        invariant Resolved(old(glyphs[..]), font, 0) == Resolved(glyphs[..], font, i)
      {
        if glyphs[i].needed {
          if glyphs[i].offset < 0 {
            return false;
          }
          var numberOfContours := CMapDecode.ShortAt(font, glyphs[i].offset);
          if numberOfContours < 0 {
            ok := MarkComponents(font, i);
            if !ok {
              return;
            }
          }
        }
        i := i + 1;
      }
      ok := true;
    }

    /** ResolveCompositeGlyphsTT's handling of the needed composite glyph i: flag it, then mark its components. */
    method MarkComponents(font: seq<byte>, i: int) returns (ok: bool)
      requires 0 <= i < glyphs.Length && glyphs[i].needed && IsComposite(font, glyphs[i])
      modifies glyphs
      ensures ok == Step(old(glyphs[..]), font, i).Success?
      ensures ok ==> glyphs[..] == Step(old(glyphs[..]), font, i).value
    {
      glyphs[i] := glyphs[i].(compositeTT := true);
      ok := MarkRecords(font, glyphs[i].offset + 10, glyphs[i].length - 10);
    }

    /**
     * The component loop: reads records from pos while `remains` is
     * positive, marking each record's glyph, until a record lacks
     * MORE_COMPONENTS; an index past the glyph list makes the source throw.
     */
    method MarkRecords(font: seq<byte>, pos0: int, remains0: int) returns (ok: bool)
      modifies glyphs
      ensures ok == MarkFrom(old(glyphs[..]), font, pos0, remains0).Success?
      ensures ok ==> glyphs[..] == MarkFrom(old(glyphs[..]), font, pos0, remains0).value
    {
      var pos, remains := pos0, remains0;
      while remains > 0
        invariant MarkFrom(old(glyphs[..]), font, pos0, remains0) == MarkFrom(glyphs[..], font, pos, remains)
        decreases remains
      {
        ghost var before, p, r := glyphs[..], pos, remains;
        var flags := CMapDecode.U16(CMapDecode.ShortAt(font, pos));
        var glyphIndex := CMapDecode.U16(CMapDecode.ShortAt(font, pos + 2));
        pos, remains := pos + 4, remains - 4;
        if glyphIndex >= glyphs.Length {
          assert MarkFrom(before, font, p, r).Failure?;
          return false;
        }
        glyphs[glyphIndex] := glyphs[glyphIndex].(needed := true);
        assert glyphs[..] == before[glyphIndex := before[glyphIndex].(needed := true)];
        if !MoreComponents(flags) {
          assert MarkFrom(before, font, p, r) == Success(glyphs[..]);
          return true;
        }
        var argSize := ArgSize(flags);
        pos, remains := pos + argSize, remains - argSize;
        MarkFromNext(before, font, p, r);
      }
      assert MarkFrom(glyphs[..], font, pos, remains) == Success(glyphs[..]);
      return true;
    }
  
    /**
     * ReindexGlyphs: makes glyphs 0 and 1 needed, numbers the needed
     * glyphs in order, counts the leading glyphs whose advances differ,
     * and for CFF outlines marks the font strings naming kept glyphs
     * (a name past the string list makes the source throw).
     */
    method ReindexGlyphs() returns (ok: bool)
      modifies this, glyphs, stringNeeded
      ensures characters == old(characters)
      ensures ok == (!cff || SidsInRange(old(glyphs[..]), glyphs.Length, stringNeeded.Length))
      ensures ok ==> glyphs[..] == Reindexed(old(glyphs[..]))
      ensures ok ==> newGlyphCount == NewGlyphCount(old(glyphs[..]))
      ensures ok ==> newVariableWidthCount == VariableWidthCount(old(glyphs[..]), glyphs.Length, old(newVariableWidthCount))
      ensures ok ==> forall j | 0 <= j < stringNeeded.Length ::
        stringNeeded[j] == (old(stringNeeded[j]) || (cff && NamesString(old(glyphs[..]), glyphs.Length, j)))
    {
      ghost var g0 := glyphs[..];
      ghost var s0 := stringNeeded[..];
      ghost var w0 := newVariableWidthCount;
      var index := 0;
      var lastAdvance := 0x10000;
      var i := 0;
      while i < glyphs.Length
        invariant 0 <= i <= glyphs.Length
        invariant forall j | 0 <= j < i :: glyphs[j] == Reindexed(g0)[j]
        invariant forall j | i <= j < glyphs.Length :: glyphs[j] == g0[j]
        invariant index == Rank(g0, i) && lastAdvance == LastAdvance(g0, i)
        invariant newVariableWidthCount == VariableWidthCount(g0, i, w0)
        invariant !cff || SidsInRange(g0, i, stringNeeded.Length)
        invariant forall j | 0 <= j < stringNeeded.Length :: stringNeeded[j] == (s0[j] || (cff && NamesString(g0, i, j)))
        invariant characters == old(characters)
      {
        NamesStringStep(g0, i);
        ReindexStep(g0, i, w0);
        var glyph := glyphs[i];
        assert glyph == g0[i];
        if i < 2 {
          glyph := glyph.(needed := true);
        }
        assert glyph.needed == Kept(g0, i);
        if glyph.needed {
          glyph := glyph.(newIndex := index);
          index := index + 1;
          if glyph.advance != lastAdvance {
            lastAdvance := glyph.advance;
            newVariableWidthCount := index;
          }
          if cff {
            var marked := MarkNameString(glyph.namesIdCFF);
            if !marked {
              return false;
            }
          }
        }
        glyphs[i] := glyph;
        assert glyph == Reindexed(g0)[i];
        i := i + 1;
      }
      newGlyphCount := index;
      ok := true;
    }

    /** Marks the font string a glyph name's SID points to as needed; false when it points past the string list. */
    method MarkNameString(sid: int) returns (ok: bool)
      modifies stringNeeded
      ensures ok == (sid < CFF_STD_STRING_COUNT || sid - CFF_STD_STRING_COUNT < stringNeeded.Length)
      ensures forall j | 0 <= j < stringNeeded.Length ::
        stringNeeded[j] == (old(stringNeeded[j]) || (ok && sid == CFF_STD_STRING_COUNT + j))
    {
      ok := true;
      if sid >= CFF_STD_STRING_COUNT {
        if sid - CFF_STD_STRING_COUNT >= stringNeeded.Length {
          return false;
        }
        stringNeeded[sid - CFF_STD_STRING_COUNT] := true;
      }
    }

    /** CalculateAverageWeight: the needed glyphs' advances summed, over one more than the count of non-zero ones. */
    method CalculateAverageWeight() returns (r: int)
      ensures r == AverageWeight(glyphs[..])
    {
      var total, count := 0, 1;
      var i := 0;
      while i < glyphs.Length
        invariant 0 <= i <= glyphs.Length
        invariant total == AdvanceTotal(glyphs[..i]) && count == 1 + AdvancedCount(glyphs[..i])
      {
        var glyph := glyphs[i];
        if glyph.needed {
          total := total + glyph.advance;
          if glyph.advance != 0 {
            count := count + 1;
          }
        }
        assert glyphs[..i + 1][..i] == glyphs[..i];
        i := i + 1;
      }
      assert glyphs[..i] == glyphs[..];
      r := ToInt16(TruncDiv(total, count));
    }

    /** GetNewFirstIndex: the smallest needed code point, or 0xFFFFF when that is smaller (or none is needed). */
    method GetNewFirstIndex() returns (value: int)
      ensures value <= 0xFFFFF
      ensures forall ch | ch in characters && characters[ch].needed :: value <= ch
      ensures value == 0xFFFFF || (value in characters && characters[value].needed)
    {
      value := 0xFFFFF;
      var keys := characters.Keys;
      while keys != {}
        invariant keys <= characters.Keys
        invariant value <= 0xFFFFF
        invariant forall ch | ch in characters && ch !in keys && characters[ch].needed :: value <= ch
        invariant value == 0xFFFFF || (value in characters && characters[value].needed)
        decreases |keys|
      {
        CMapSegments.NonEmpty(keys);
        var ch :| ch in keys;
        if characters[ch].needed && ch < value {
          value := ch;
        }
        keys := keys - {ch};
      }
    }

    /**
     * GetNewLastIndex: the largest needed code point other than 0xFFFF,
     * capped at 0xFFFF, or 0 when there is none above 0.
     */
    method GetNewLastIndex() returns (value: int)
      ensures 0 <= value <= 0xFFFF
      ensures forall ch | ch in characters && characters[ch].needed && ch != 0xFFFF :: Min(ch, 0xFFFF) <= value
      ensures value == 0 || exists ch | ch in characters && characters[ch].needed && ch != 0xFFFF :: value == Min(ch, 0xFFFF)
    {
      value := 0;
      var keys := characters.Keys;
      while keys != {}
        invariant keys <= characters.Keys
        invariant 0 <= value
        invariant forall ch | ch in characters && ch !in keys && characters[ch].needed && ch != 0xFFFF :: ch <= value
        invariant value == 0 || (value in characters && characters[value].needed && value != 0xFFFF)
        decreases |keys|
      {
        CMapSegments.NonEmpty(keys);
        var ch :| ch in keys;
        if characters[ch].needed {
          if ch > value && ch != 0xFFFF {
            value := ch;
          }
        }
        keys := keys - {ch};
      }
      ghost var top := value;
      if value > 0xFFFF {
        value := 0xFFFF;
      }
      assert top != 0 ==> value == Min(top, 0xFFFF);
    }

    /**
     * The glyph work GetSubsettedFont does before laying out the tables:
     * composite resolution for TrueType outlines, then reindexing.  The
     * CanSubset verdict is computed by the source but does not stop it.
     */
    method PrepareGlyphs(font: seq<byte>) returns (ok: bool)
      modifies this, glyphs, stringNeeded
      ensures characters == old(characters)
      ensures var resolved := if trueTypeGlyphs then Resolved(old(glyphs[..]), font, 0) else Success(old(glyphs[..]));
        ok == (resolved.Success? && (!cff || SidsInRange(resolved.value, glyphs.Length, stringNeeded.Length)))
      ensures var resolved := if trueTypeGlyphs then Resolved(old(glyphs[..]), font, 0) else Success(old(glyphs[..]));
        ok ==> resolved.Success? && glyphs[..] == Reindexed(resolved.value) &&
               newGlyphCount == NewGlyphCount(resolved.value) &&
               newVariableWidthCount == VariableWidthCount(resolved.value, glyphs.Length, old(newVariableWidthCount)) &&
               forall j | 0 <= j < stringNeeded.Length ::
                 stringNeeded[j] == (old(stringNeeded[j]) || (cff && NamesString(resolved.value, glyphs.Length, j)))
    {
      var allowed := CanSubset(fsType);
      if trueTypeGlyphs {
        ok := ResolveCompositeGlyphs(font);
        if !ok {
          return;
        }
      }
      ok := ReindexGlyphs();
    }
  }

  function Min(a: int, b: int): int
  {
    if a < b then a else b
  }
}
