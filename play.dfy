/**
 * OpenTypeFont.Play: marking the characters a text uses, and the glyphs
 * they map to, as needed in the subset.  Here the state Play changes (the
 * character map and the glyph list) is a value, so that what a whole text
 * does can be stated and proved once; the Font class runs the same steps
 * in place.
 */
module Play {
  import opened Records

  /** A UTF-16 code unit: the C# `char` a string is made of. */
  type CodeUnit = c: int | 0 <= c < 0x1_0000

  /** The part of the subsetter's state that Play changes. */
  datatype Playing = Playing(characters: map<int, CharacterData>, glyphs: seq<GlyphData>)

  /** Whether Play(ch) finds a character for ch whose glyph index names a glyph. */
  predicate Found(s: Playing, ch: int)
  {
    ch in s.characters && 0 <= s.characters[ch].glyphIndex < |s.glyphs|
  }

  /** Play(char): the state after one character is played. */
  function PlayOne(s: Playing, ch: int): (r: Playing)
    ensures r.characters.Keys == s.characters.Keys && |r.glyphs| == |s.glyphs|
  {
    if ch !in s.characters then s
    else
      var c := s.characters[ch];
      var chars := s.characters[ch := c.(needed := true)];
      if 0 <= c.glyphIndex < |s.glyphs| then
        Playing(chars, s.glyphs[c.glyphIndex := s.glyphs[c.glyphIndex].(needed := true)])
      else
        Playing(chars, s.glyphs)
  }

  /** Play(string): the state after every character of the text is played, in order. */
  function PlayAll(s: Playing, text: seq<CodeUnit>): (r: Playing)
    ensures r.characters.Keys == s.characters.Keys && |r.glyphs| == |s.glyphs|
    decreases |text|
  {
    if text == [] then s else PlayOne(PlayAll(s, text[..|text| - 1]), text[|text| - 1])
  }

  /** Some character of the text maps to glyph g. */
  predicate Reaches(characters: map<int, CharacterData>, text: seq<CodeUnit>, g: int)
  {
    exists i | 0 <= i < |text| :: text[i] in characters && characters[text[i]].glyphIndex == g
  }

  /** What Play leaves in the character map and the glyph list, stated outright. */
  ghost predicate PlayedFrom(s: Playing, text: seq<CodeUnit>, r: Playing)
  {
    && r.characters.Keys == s.characters.Keys
    && (forall ch | ch in r.characters ::
          r.characters[ch] == s.characters[ch].(needed := s.characters[ch].needed || ch in text))
    && |r.glyphs| == |s.glyphs|
    && (forall g | 0 <= g < |r.glyphs| ::
          r.glyphs[g] == s.glyphs[g].(needed := s.glyphs[g].needed || Reaches(s.characters, text, g)))
  }

  /**
   * Playing a text marks exactly the characters of the text that the font
   * maps, and exactly the glyphs those characters map to; nothing else
   * (glyph indices, offsets, widths) changes.
   */
  lemma {:induction false} PlayAllMarks(s: Playing, text: seq<CodeUnit>)
    ensures PlayedFrom(s, text, PlayAll(s, text))
    decreases |text|
  {
    if text != [] {
      var front := text[..|text| - 1];
      var ch := text[|text| - 1];
      PlayAllMarks(s, front);
      var t := PlayAll(s, front);
      var r := PlayOne(t, ch);
      assert forall c :: c in text <==> c in front || c == ch by {
        assert text == front + [ch];
      }
      forall g | 0 <= g < |s.glyphs|
        ensures Reaches(s.characters, text, g) <==> Reaches(s.characters, front, g) || (ch in s.characters && s.characters[ch].glyphIndex == g)
      {
        if Reaches(s.characters, text, g) {
          var i :| 0 <= i < |text| && text[i] in s.characters && s.characters[text[i]].glyphIndex == g;
          if i < |front| {
            assert front[i] == text[i];
          }
        }
        if Reaches(s.characters, front, g) {
          var i :| 0 <= i < |front| && front[i] in s.characters && s.characters[front[i]].glyphIndex == g;
          assert text[i] == front[i];
        }
        if ch in s.characters && s.characters[ch].glyphIndex == g {
          assert text[|text| - 1] == ch;
        }
      }
      if ch in t.characters {
        assert t.characters[ch].glyphIndex == s.characters[ch].glyphIndex;
      }
    }
  }

  /** Playing is cumulative: playing two texts one after the other is playing their concatenation. */
  lemma {:induction false} PlayAllAppend(s: Playing, a: seq<CodeUnit>, b: seq<CodeUnit>)
    ensures PlayAll(PlayAll(s, a), b) == PlayAll(s, a + b)
    decreases |b|
  {
    if b == [] {
      assert a + b == a;
    } else {
      var front := b[..|b| - 1];
      PlayAllAppend(s, a, front);
      assert (a + b)[..|a + b| - 1] == a + front;
      assert (a + b)[|a + b| - 1] == b[|b| - 1];
    }
  }
}
