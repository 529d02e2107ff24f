/**
 * OpenTypeFont.ReindexGlyphs and CalculateAverageWeight, on the glyph list
 * as a value: which glyphs the subset keeps, the new index each kept glyph
 * gets, how many leading glyphs carry their own advance width in the new
 * 'hmtx' table, and the average advance written to OS/2.
 */
module Reindex {
  import opened BigEndian
  import opened Records

  /** Glyphs 0 and 1 (.notdef and the null glyph) are always kept; the others when needed. */
  predicate Kept(gs: seq<GlyphData>, i: int)
    requires 0 <= i < |gs|
  {
    i < 2 || gs[i].needed
  }

  /** The number of kept glyphs among the first i: the next new index. */
  function Rank(gs: seq<GlyphData>, i: int): (r: nat)
    requires 0 <= i <= |gs|
    ensures r <= i
  {
    if i == 0 then 0 else Rank(gs, i - 1) + (if Kept(gs, i - 1) then 1 else 0)
  }

  /** ReindexGlyphs' new glyph list: kept glyphs are needed and numbered in order. */
  function Reindexed(gs: seq<GlyphData>): (r: seq<GlyphData>)
    ensures |r| == |gs|
  {
    seq(|gs|, i requires 0 <= i < |gs| =>
      if Kept(gs, i) then gs[i].(needed := true, newIndex := Rank(gs, i)) else gs[i])
  }

  /** NewGlyphCount: the number of kept glyphs. */
  function NewGlyphCount(gs: seq<GlyphData>): nat
  {
    Rank(gs, |gs|)
  }

  /** The advance of the last kept glyph among the first i, or 0x10000 (no 16-bit advance) before the first. */
  function LastAdvance(gs: seq<GlyphData>, i: int): int
    requires 0 <= i <= |gs|
  {
    if i == 0 then 0x10000
    else if Kept(gs, i - 1) then gs[i - 1].advance
    else LastAdvance(gs, i - 1)
  }

  /**
   * NewVariableWidthCount after the first i glyphs, starting from the
   * field's value `init`: the new count of glyphs up to and including the
   * last kept glyph whose advance differs from the kept glyph before it.
   */
  function VariableWidthCount(gs: seq<GlyphData>, i: int, init: int): int
    requires 0 <= i <= |gs|
  {
    if i == 0 then init
    else if Kept(gs, i - 1) && gs[i - 1].advance != LastAdvance(gs, i - 1) then Rank(gs, i)
    else VariableWidthCount(gs, i - 1, init)
  }

  /** What one more glyph adds to the new list, the count of kept glyphs, the last advance and the variable-width count. */
  lemma ReindexStep(gs: seq<GlyphData>, i: int, init: int)
    requires 0 <= i < |gs|
    ensures Reindexed(gs)[i] == if Kept(gs, i) then gs[i].(needed := true, newIndex := Rank(gs, i)) else gs[i]
    ensures Rank(gs, i + 1) == Rank(gs, i) + (if Kept(gs, i) then 1 else 0)
    ensures LastAdvance(gs, i + 1) == if Kept(gs, i) then gs[i].advance else LastAdvance(gs, i)
    ensures VariableWidthCount(gs, i + 1, init) ==
      if Kept(gs, i) && gs[i].advance != LastAdvance(gs, i) then Rank(gs, i + 1) else VariableWidthCount(gs, i, init)
  {
  }

  /** New indices follow the original order: a kept glyph gets a smaller index than every kept glyph after it. */
  lemma {:induction false} RankIncreasing(gs: seq<GlyphData>, i: int, j: int)
    requires 0 <= i < j < |gs| && Kept(gs, i)
    ensures Rank(gs, i) < Rank(gs, j)
    decreases j - i
  {
    if j > i + 1 {
      RankIncreasing(gs, i, j - 1);
    }
  }

  /** Every index below NewGlyphCount belongs to a kept glyph. */
  lemma {:induction false} RankOnto(gs: seq<GlyphData>, n: int, k: int)
    requires 0 <= n <= |gs| && 0 <= k < Rank(gs, n)
    ensures exists i | 0 <= i < n :: Kept(gs, i) && Rank(gs, i) == k
    decreases n
  {
    if k < Rank(gs, n - 1) {
      RankOnto(gs, n - 1, k);
    } else {
      assert Kept(gs, n - 1) && Rank(gs, n - 1) == k;
    }
  }

  /** Some needed glyph has new index k. */
  predicate IndexUsed(gs: seq<GlyphData>, k: int)
  {
    exists i | 0 <= i < |gs| :: gs[i].needed && gs[i].newIndex == k
  }

  /**
   * ReindexGlyphs makes glyphs 0 and 1 needed, numbers the needed glyphs
   * 0 .. NewGlyphCount - 1 in their original order (each index used once),
   * and leaves everything else as it was.
   */
  lemma ReindexedNumbering(gs: seq<GlyphData>)
    ensures var r := Reindexed(gs);
      (forall i | 0 <= i < |r| && i < 2 :: r[i].needed) &&
      (forall i | 0 <= i < |r| :: r[i].needed <==> Kept(gs, i)) &&
      (forall i | 0 <= i < |r| && r[i].needed :: 0 <= r[i].newIndex < NewGlyphCount(gs)) &&
      (forall i, j | 0 <= i < j < |r| && r[i].needed && r[j].needed :: r[i].newIndex < r[j].newIndex) &&
      (forall k | 0 <= k < NewGlyphCount(gs) :: IndexUsed(r, k)) &&
      (forall i | 0 <= i < |r| :: r[i] == gs[i].(needed := r[i].needed, newIndex := r[i].newIndex)) &&
      (forall i | 0 <= i < |r| && !Kept(gs, i) :: r[i] == gs[i])
  {
    var r := Reindexed(gs);
    forall i | 0 <= i < |r| && r[i].needed
      ensures r[i].newIndex < NewGlyphCount(gs)
    {
      if i + 1 < |gs| {
        RankIncreasing(gs, i, |gs| - 1);
      }
      assert Rank(gs, i + 1) == Rank(gs, i) + 1;
      RankBelow(gs, i + 1, |gs|);
    }
    forall i, j | 0 <= i < j < |r| && r[i].needed && r[j].needed
      ensures r[i].newIndex < r[j].newIndex
    {
      RankIncreasing(gs, i, j);
    }
    forall k | 0 <= k < NewGlyphCount(gs)
      ensures IndexUsed(r, k)
    {
      RankOnto(gs, |gs|, k);
      var i :| 0 <= i < |gs| && Kept(gs, i) && Rank(gs, i) == k;
      assert r[i].needed && r[i].newIndex == k;
    }
  }

  /** The number of standard strings CFF defines (SIDs 0 .. 390); SID 391 + j names font string j. */
  const CFF_STD_STRING_COUNT: int := 391

  /** Every kept glyph whose name is a font string names one of the `count` strings the font has. */
  predicate SidsInRange(gs: seq<GlyphData>, n: int, count: int)
    requires 0 <= n <= |gs|
  {
    forall i | 0 <= i < n && Kept(gs, i) && gs[i].namesIdCFF >= CFF_STD_STRING_COUNT ::
      gs[i].namesIdCFF - CFF_STD_STRING_COUNT < count
  }

  /** Some kept glyph among the first n is named by font string j. */
  predicate NamesString(gs: seq<GlyphData>, n: int, j: int)
    requires 0 <= n <= |gs|
  {
    exists i | 0 <= i < n && Kept(gs, i) :: gs[i].namesIdCFF == CFF_STD_STRING_COUNT + j
  }

  /** Extending the prefix by glyph n. */
  lemma NamesStringStep(gs: seq<GlyphData>, n: int)
    requires 0 <= n < |gs|
    ensures forall j :: (NamesString(gs, n + 1, j) ==
      (NamesString(gs, n, j) || (Kept(gs, n) && gs[n].namesIdCFF == CFF_STD_STRING_COUNT + j)))
  {
    forall j
      ensures NamesString(gs, n + 1, j) ==
        (NamesString(gs, n, j) || (Kept(gs, n) && gs[n].namesIdCFF == CFF_STD_STRING_COUNT + j))
    {
      if NamesString(gs, n + 1, j) {
        var i :| 0 <= i < n + 1 && Kept(gs, i) && gs[i].namesIdCFF == CFF_STD_STRING_COUNT + j;
        if i < n {
          assert NamesString(gs, n, j);
        }
      }
    }
  }

  /** Rank only grows. */
  lemma {:induction false} RankBelow(gs: seq<GlyphData>, i: int, j: int)
    requires 0 <= i <= j <= |gs|
    ensures Rank(gs, i) <= Rank(gs, j)
    decreases j - i
  {
    if i < j {
      RankBelow(gs, i, j - 1);
    }
  }

  /** Advances are C# shorts. */
  ghost predicate ShortAdvances(gs: seq<GlyphData>)
  {
    forall i | 0 <= i < |gs| :: IsInt16(gs[i].advance)
  }

  /**
   * With 16-bit advances, the first kept glyph always starts a new width,
   * so after n >= 1 glyphs the variable-width count is at least 1 and at
   * most the new glyph count.
   */
  lemma {:induction false} VariableWidthBounds(gs: seq<GlyphData>, n: int, init: int)
    requires 1 <= n <= |gs| && ShortAdvances(gs)
    ensures 1 <= VariableWidthCount(gs, n, init) <= Rank(gs, n)
    decreases n
  {
    if n == 1 {
      assert Kept(gs, 0);
    } else {
      VariableWidthBounds(gs, n - 1, init);
    }
  }

  /**
   * Every kept glyph from new index VariableWidthCount - 1 on has the same
   * advance (the last kept glyph's), so the new 'hmtx' may list only the
   * first VariableWidthCount advances.
   */
  lemma {:induction false} TrailingSameAdvance(gs: seq<GlyphData>, n: int, init: int)
    requires 1 <= n <= |gs| && ShortAdvances(gs)
    ensures forall i | 0 <= i < n && Kept(gs, i) && Rank(gs, i) >= VariableWidthCount(gs, n, init) - 1 ::
      gs[i].advance == LastAdvance(gs, n)
    decreases n
  {
    var v := VariableWidthCount(gs, n, init);
    if n > 1 {
      TrailingSameAdvance(gs, n - 1, init);
      VariableWidthBounds(gs, n - 1, init);
      forall i | 0 <= i < n && Kept(gs, i) && Rank(gs, i) >= v - 1
        ensures gs[i].advance == LastAdvance(gs, n)
      {
        if i < n - 1 {
          if Kept(gs, n - 1) && gs[n - 1].advance != LastAdvance(gs, n - 1) {
            RankIncreasing(gs, i, n - 1);
          }
        }
      }
    }
  }

  /** C#'s integer division, which truncates toward zero: the remainder takes the dividend's sign. */
  function TruncDiv(a: int, b: int): (r: int)
    requires b > 0
    ensures a >= 0 ==> 0 <= a - r * b < b
    ensures a < 0 ==> -b < a - r * b <= 0
  {
    if a >= 0 then a / b else -((-a) / b)
  }

  /** The sum of the advances of the needed glyphs. */
  function AdvanceTotal(gs: seq<GlyphData>): int
    decreases |gs|
  {
    if gs == [] then 0
    else AdvanceTotal(gs[..|gs| - 1]) + (if gs[|gs| - 1].needed then gs[|gs| - 1].advance else 0)
  }

  /** The number of needed glyphs with a non-zero advance. */
  function AdvancedCount(gs: seq<GlyphData>): (r: nat)
    ensures r <= |gs|
    decreases |gs|
  {
    if gs == [] then 0
    else AdvancedCount(gs[..|gs| - 1]) + (if gs[|gs| - 1].needed && gs[|gs| - 1].advance != 0 then 1 else 0)
  }

  /** CalculateAverageWeight: the total advance over one more than the count of advanced glyphs, as a short. */
  function AverageWeight(gs: seq<GlyphData>): int
  {
    ToInt16(TruncDiv(AdvanceTotal(gs), 1 + AdvancedCount(gs)))
  }

  /** With every needed advance within 0 .. bound, the total is at most bound times the count of non-zero ones. */
  lemma {:induction false} TotalBounded(gs: seq<GlyphData>, bound: int)
    requires forall i | 0 <= i < |gs| && gs[i].needed :: 0 <= gs[i].advance <= bound
    ensures 0 <= AdvanceTotal(gs) <= bound * AdvancedCount(gs)
    decreases |gs|
  {
    if gs != [] {
      var front := gs[..|gs| - 1];
      assert forall i | 0 <= i < |front| :: front[i] == gs[i];
      TotalBounded(front, bound);
    }
  }

  /**
   * When every needed glyph's advance lies within 0 .. bound (bound a
   * short), the average weight lies within 0 .. bound too: seeding the
   * divisor at 1 can only pull it down, and the short cast does not wrap.
   */
  lemma AverageWithinAdvances(gs: seq<GlyphData>, bound: int)
    requires 0 <= bound <= 0x7FFF
    requires forall i | 0 <= i < |gs| && gs[i].needed :: 0 <= gs[i].advance <= bound
    ensures 0 <= AverageWeight(gs) <= bound
  {
    TotalBounded(gs, bound);
    var t, c := AdvanceTotal(gs), 1 + AdvancedCount(gs);
    assert t <= bound * c;
    DivBelow(t, c, bound);
  }

  lemma DivBelow(t: int, c: int, bound: int)
    requires 0 <= t <= bound * c && c > 0 && bound >= 0
    ensures 0 <= t / c <= bound
  {
  }
}
