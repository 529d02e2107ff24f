/**
 * How the tables SweepTables installs fit together in the subset: the new
 * 'head' lets WriteTables produce a file whose checksum is 0xB1B0AFBA, its
 * indexToLocFormat names the format BuildGlyphLocations wrote, and a
 * reader of the new 'loca' finds every kept glyph's new bytes in the new
 * 'glyf'.
 */
module SubsetFacts {
  import opened BigEndian
  import opened Outcome
  import opened Records
  import opened Sfnt
  import Checksum
  import Writer
  import WriterFacts
  import Tables
  import Loca
  import GlyphsTT

  // ---------------------------------------------------------------- 'head' in the swept directory

  /** FindTag looks only at the tags. */
  lemma {:induction false} FindTagSameTags(a: seq<TableEntry>, b: seq<TableEntry>, tag: int)
    requires |a| == |b| && forall j | 0 <= j < |a| :: a[j].tag == b[j].tag
    ensures Writer.FindTag(a, tag) == Writer.FindTag(b, tag)
    decreases |a|
  {
    if a != [] {
      var n := |a| - 1;
      FindTagSameTags(a[..n], b[..n], tag);
    }
  }

  /** Sweeping and laying out the directory keeps every table's tag. */
  lemma SweptTags(es: seq<TableEntry>, b: Rebuilt)
    requires SweptAll(es, b).Success?
    ensures |Layout(SweptAll(es, b).value)| == |es|
    ensures forall j | 0 <= j < |es| :: Layout(SweptAll(es, b).value)[j].tag == es[j].tag
  {
    var sv := SweptAll(es, b).value;
    forall j | 0 <= j < |es|
      ensures Layout(sv)[j].tag == es[j].tag
    {
      SweptAllAt(es, b, j);
      LayoutAt(sv, j);
    }
  }

  /** After the sweep, the 'head' entry is where it was, needed, and holds what BuildHead built. */
  lemma SweptHead(es: seq<TableEntry>, b: Rebuilt, h: nat)
    requires SweptAll(es, b).Success? && Writer.FindTag(es, HEAD) == Some(h)
    ensures b.head.Success?
    ensures var s := Layout(SweptAll(es, b).value);
      Writer.FindTag(s, HEAD) == Some(h) && s[h].needed && s[h].newContent == Some(b.head.value)
  {
    var sv := SweptAll(es, b).value;
    SweptAllAt(es, b, h);
    LayoutAt(sv, h);
    SweptTags(es, b);
    FindTagSameTags(es, Layout(sv), HEAD);
  }

  /**
   * The subset's checksum: when the directory is swept with the 'head'
   * BuildHead made and then laid out, WriteTables succeeds and the whole
   * file sums to 0xB1B0AFBA — BuildHead's zeroing of checkSumAdjustment
   * is what the writer's adjustment relies on.
   */
  lemma SubsetChecksum(es: seq<TableEntry>, b: Rebuilt, trueType: bool, font: seq<byte>,
                       headOffset: int, headLength: int, ticks: int)
    requires SweptAll(es, b).Success? && Writer.FindTag(es, HEAD).Some?
    requires b.head == Tables.HeadTable(font, headOffset, headLength, ShortLoca(b.glyf), ticks)
    requires Writer.Copyable(Layout(SweptAll(es, b).value)) && Sized(Layout(SweptAll(es, b).value))
    ensures var s := Layout(SweptAll(es, b).value);
      Writer.Written(s, trueType, font).Success? &&
      Checksum.CheckSum(Writer.Written(s, trueType, font).value) == Checksum.CHECKSUM_MAGIC
  {
    var h := Writer.FindTag(es, HEAD).value;
    SweptHead(es, b, h);
    var sv := SweptAll(es, b).value;
    Tables.HeadFacts(Tables.Fresh(font, headOffset, headLength).value, ShortLoca(b.glyf), ticks);
    LayoutLaidOut(sv);
    WriterFacts.WrittenChecksum(Layout(sv), trueType, font, h);
  }

  // ---------------------------------------------------------------- 'head', 'loca' and 'glyf'

  /** The format BuildHead records is the format SweepTables asks BuildGlyphLocations for. */
  lemma HeadNamesLocaFormat(font: seq<byte>, headOffset: int, headLength: int, glyf: Option<seq<byte>>, ticks: int)
    requires Tables.HeadTable(font, headOffset, headLength, ShortLoca(glyf), ticks).Success?
    ensures var t := Tables.HeadTable(font, headOffset, headLength, ShortLoca(glyf), ticks).value;
      Loca.IndexToLocFormat(t, 0) == 0 <==> ShortLoca(glyf)
  {
    Tables.HeadFacts(Tables.Fresh(font, headOffset, headLength).value, ShortLoca(glyf), ticks);
  }

  /** With every glyph's length non-negative, the kept lengths are too. */
  lemma {:induction false} KeptNonNegative(gs: seq<GlyphData>)
    requires forall k | 0 <= k < |gs| :: gs[k].length >= 0
    ensures forall j | 0 <= j < |Loca.KeptLengths(gs)| :: Loca.KeptLengths(gs)[j] >= 0
  {
    if gs != [] {
      KeptNonNegative(gs[..|gs| - 1]);
    }
  }

  /**
   * A needed glyph k is kept glyph j, where j counts the needed glyphs
   * before it: its length is entry j of the kept lengths, and the kept
   * lengths before it are the first j.
   */
  lemma {:induction false} KeptIndex(gs: seq<GlyphData>, k: nat)
    requires k < |gs| && gs[k].needed
    ensures var ls, j := Loca.KeptLengths(gs), |Loca.KeptLengths(gs[..k])|;
      j < |ls| && ls[j] == gs[k].length && ls[..j] == Loca.KeptLengths(gs[..k])
    decreases |gs|
  {
    var n := |gs| - 1;
    Loca.KeptStep(gs, n);
    assert gs[..n + 1] == gs;
    if k < n {
      KeptIndex(gs[..n], k);
      assert gs[..n][..k] == gs[..k];
      var ls := Loca.KeptLengths(gs[..n]);
      var j := |Loca.KeptLengths(gs[..k])|;
      var all := Loca.KeptLengths(gs);
      assert all[..|ls|] == ls;
      assert all[..j] == ls[..j];
    } else {
      Loca.KeptStep(gs, k);
      var ls := Loca.KeptLengths(gs[..k]);
      assert Loca.KeptLengths(gs) == ls + [gs[k].length];
      assert (ls + [gs[k].length])[..|ls|] == ls;
    }
  }

  /**
   * The subset's glyphs can be found: in a TrueType subset whose 'glyf' has
   * at most 0x1FFFF bytes (the short 'loca' format BuildHead records), a
   * reader that decodes the new 'loca' with 'glyf' at offset g finds, for
   * the needed glyph k, a glyph whose bytes in the new 'glyf' begin with
   * glyph k's new bytes and whose length is that length padded to 4.
   */
  lemma SubsetGlyphFound(gs: seq<GlyphData>, font: seq<byte>, k: nat, g: int, init: int)
    requires k < |gs| && gs[k].needed && GlyphsTT.InFont(gs, font) && GlyphsTT.Glyf(gs, font).Success?
    requires ShortLoca(Some(GlyphsTT.Glyf(gs, font).value))
    requires 0 <= g && g + 0x20000 < 0x8000_0000
    ensures var ls, j := Loca.KeptLengths(gs), |Loca.KeptLengths(gs[..k])|;
      var d := Loca.DecodeLoca(Loca.CorrectedLocations(gs, true), |ls|, false, g, init);
      d.Success? && j < |d.value.glyphs| && GlyphsTT.NewBytes(gs, font, gs[k]).Success? &&
      d.value.glyphs[j].length == Padded4(gs[k].length) &&
      var o, t := d.value.glyphs[j].offset - g, GlyphsTT.Glyf(gs, font).value;
      0 <= o && o + gs[k].length <= |t| && t[o..o + gs[k].length] == GlyphsTT.NewBytes(gs, font, gs[k]).value
  {
    var ls := Loca.KeptLengths(gs);
    var j := |Loca.KeptLengths(gs[..k])|;
    KeptNonNegative(gs);
    var ns: seq<nat> := ls;
    GlyphsTT.GlyfLength(gs, font, |gs|);
    assert gs[..|gs|] == gs;
    Loca.LocaRoundTrip(ns, true, false, g, init);
    KeptIndex(gs, k);
    GlyphsTT.GlyphWhereLocaSays(gs, font, k);
  }
}
