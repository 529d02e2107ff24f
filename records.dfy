/**
 * The per-glyph and per-character records OpenTypeFont keeps while it
 * subsets a font (OpenTypeFont/GlyphData .cs and the CharacterData class).
 * The source holds them as objects in a List and a Dictionary and updates
 * their fields in place; here each record is a value, and the containers
 * that own them (an array of glyphs, a map of characters) are what change.
 */
module Records {

  /** OpenTypeFont/GlyphData .cs: where a glyph lives in the input and what the subset does with it. */
  datatype GlyphData = GlyphData(
    needed: bool,
    compositeTT: bool,
    offset: int,
    length: int,
    advance: int,
    lsb: int,
    namesIdCFF: int,
    newIndex: int)

  /** A character of the font's Unicode cmap: the glyph it maps to (a C# short) and whether the text uses it. */
  datatype CharacterData = CharacterData(glyphIndex: int, needed: bool)
}
