/**
 * OpenTypeFont.ResolveCompositeGlyphsTT and GetCompositeGlyphArgSize: the
 * single forward pass that marks the components of needed composite
 * TrueType glyphs as needed (OpenType 'glyf' table, composite glyph
 * description).  The glyph list is a value here; the Font class runs the
 * same pass in place and is proved to end in the state Resolved describes.
 */
module Composite {
  import opened BigEndian
  import opened Outcome
  import opened Records
  import opened CMapDecode

  /** The message of the ArgumentOutOfRangeException of List indexing. */
  const LIST_INDEX_ERROR: string := "Index was out of range. Must be non-negative and less than the size of the collection."

  /** Flag bit b (a power of two) of a flags word is set: the test `(flags & b) != 0`. */
  predicate HasFlag(flags: int, b: int)
    requires 0 < b
  {
    (flags / b) % 2 == 1
  }

  /**
   * GetCompositeGlyphArgSize: the bytes of a component record that follow
   * its flags and glyph index — the two arguments, words with
   * ARG_1_AND_2_ARE_WORDS (0x1) and bytes otherwise, then the
   * transformation: one F2Dot14 value with WE_HAVE_A_SCALE (0x8), else two
   * with WE_HAVE_AN_X_AND_Y_SCALE (0x40), else four with
   * WE_HAVE_A_TWO_BY_TWO (0x80), the first flag set winning.
   */
  function ArgSize(flags: int): (r: int)
    ensures 2 <= r <= 12
  {
    var args := if HasFlag(flags, 1) then 4 else 2;
    if HasFlag(flags, 8) then args + 2
    else if HasFlag(flags, 0x40) then args + 4
    else if HasFlag(flags, 0x80) then args + 8
    else args
  }

  /** The flag tests are the source's mask tests on the unsigned 16-bit flags word. */
  lemma FlagMasks(flags: int)
    requires 0 <= flags < TWO_16
    ensures HasFlag(flags, 1) == ((flags as bv16) & 1 != 0)
    ensures HasFlag(flags, 8) == ((flags as bv16) & 8 != 0)
    ensures HasFlag(flags, 0x20) == ((flags as bv16) & 0x20 != 0)
    ensures HasFlag(flags, 0x40) == ((flags as bv16) & 0x40 != 0)
    ensures HasFlag(flags, 0x80) == ((flags as bv16) & 0x80 != 0)
  {
  }

  /** The record size is even: the arguments and the F2Dot14 values are 2 bytes each or come in pairs of bytes. */
  lemma ArgSizeEven(flags: int)
    ensures ArgSize(flags) % 2 == 0
  {
  }

  /** The MORE_COMPONENTS test (0x20) of the component loop. */
  predicate MoreComponents(flags: int)
  {
    HasFlag(flags, 0x20)
  }

  /** The numberOfContours field of a glyph is negative: the glyph is composite. */
  predicate IsComposite(font: seq<byte>, g: GlyphData)
  {
    ShortAt(font, g.offset) < 0
  }

  /**
   * The glyph indices the component records name, read from pos on while
   * `remains` (the glyph's length less what has been read) is positive;
   * the record whose flags lack MORE_COMPONENTS is the last one read.
   */
  function Components(font: seq<byte>, pos: int, remains: int): (r: seq<int>)
    ensures forall i | 0 <= i < |r| :: 0 <= r[i] < TWO_16
    decreases remains
  {
    if remains <= 0 then []
    else
      var flags := U16(ShortAt(font, pos));
      var id := U16(ShortAt(font, pos + 2));
      if !MoreComponents(flags) then [id]
      else [id] + Components(font, pos + 4 + ArgSize(flags), remains - 4 - ArgSize(flags))
  }

  /** The components of glyph g: its records start after the 10-byte glyph header. */
  function ComponentsOf(font: seq<byte>, g: GlyphData): seq<int>
  {
    Components(font, g.offset + 10, g.length - 10)
  }

  /**
   * The component loop itself: from pos on, while `remains` is positive,
   * read a record, mark its glyph needed (an index past the glyph list
   * makes the source throw), and stop after a record without
   * MORE_COMPONENTS.
   */
  function MarkFrom(gs: seq<GlyphData>, font: seq<byte>, pos: int, remains: int): (r: Result<seq<GlyphData>>)
    ensures r.Success? ==> |r.value| == |gs|
    decreases remains
  {
    if remains <= 0 then Success(gs)
    else
      var flags := U16(ShortAt(font, pos));
      var id := U16(ShortAt(font, pos + 2));
      if id >= |gs| then Failure(LIST_INDEX_ERROR)
      else
        var next := gs[id := gs[id].(needed := true)];
        if !MoreComponents(flags) then Success(next)
        else MarkFrom(next, font, pos + 4 + ArgSize(flags), remains - 4 - ArgSize(flags))
  }

  /** After a record with MORE_COMPONENTS set, the loop goes on at the next record. */
  lemma MarkFromNext(gs: seq<GlyphData>, font: seq<byte>, pos: int, remains: int)
    requires remains > 0 && MoreComponents(U16(ShortAt(font, pos)))
    requires 0 <= U16(ShortAt(font, pos + 2)) < |gs|
    ensures var flags, id := U16(ShortAt(font, pos)), U16(ShortAt(font, pos + 2));
      MarkFrom(gs, font, pos, remains) ==
      MarkFrom(gs[id := gs[id].(needed := true)], font, pos + 4 + ArgSize(flags), remains - 4 - ArgSize(flags))
  {
  }

  /** One component record: its glyph index, then the records after it unless MORE_COMPONENTS is clear. */
  lemma ComponentsStep(font: seq<byte>, pos: int, remains: int)
    requires remains > 0
    ensures var flags := U16(ShortAt(font, pos));
      Components(font, pos, remains) ==
        [U16(ShortAt(font, pos + 2))] +
        (if MoreComponents(flags) then Components(font, pos + 4 + ArgSize(flags), remains - 4 - ArgSize(flags)) else [])
  {
  }

  /** Every index of ids is below n. */
  predicate AllBelow(ids: seq<int>, n: int)
  {
    forall k | 0 <= k < |ids| :: ids[k] < n
  }

  lemma AllBelowCons(id: int, rest: seq<int>, n: int)
    ensures AllBelow([id] + rest, n) == (id < n && AllBelow(rest, n))
    ensures forall j :: j in [id] + rest <==> j == id || j in rest
  {
    var ids := [id] + rest;
    if id < n && AllBelow(rest, n) {
      forall k | 0 <= k < |ids| ensures ids[k] < n {
        if k > 0 { assert ids[k] == rest[k - 1]; }
      }
    }
    if AllBelow(ids, n) {
      assert ids[0] == id;
      forall k | 0 <= k < |rest| ensures rest[k] < n {
        assert rest[k] == ids[k + 1];
      }
    }
  }

  /** The component loop succeeds exactly when every component index names a glyph. */
  lemma {:induction false} MarkFromSucceeds(gs: seq<GlyphData>, font: seq<byte>, pos: int, remains: int)
    ensures MarkFrom(gs, font, pos, remains).Success? == AllBelow(Components(font, pos, remains), |gs|)
    decreases remains
  {
    if remains > 0 {
      var flags := U16(ShortAt(font, pos));
      var id := U16(ShortAt(font, pos + 2));
      ComponentsStep(font, pos, remains);
      if MoreComponents(flags) {
        var p, rem := pos + 4 + ArgSize(flags), remains - 4 - ArgSize(flags);
        AllBelowCons(id, Components(font, p, rem), |gs|);
        if id < |gs| {
          MarkFromSucceeds(gs[id := gs[id].(needed := true)], font, p, rem);
        }
      } else {
        AllBelowCons(id, [], |gs|);
      }
    }
  }

  /** r is gs with the glyphs of ids made needed, and nothing else changed. */
  ghost predicate MarkedFrom(gs: seq<GlyphData>, r: seq<GlyphData>, ids: seq<int>)
  {
    |r| == |gs| && forall j | 0 <= j < |gs| :: r[j] == gs[j].(needed := gs[j].needed || j in ids)
  }

  /** Marking glyph id and then the glyphs of rest marks the glyphs of [id] + rest. */
  lemma MarksCompose(gs: seq<GlyphData>, id: int, rest: seq<int>, r: seq<GlyphData>)
    requires 0 <= id < |gs| && MarkedFrom(gs[id := gs[id].(needed := true)], r, rest)
    ensures MarkedFrom(gs, r, [id] + rest)
  {
    var next := gs[id := gs[id].(needed := true)];
    forall j | 0 <= j < |gs|
      ensures r[j] == gs[j].(needed := gs[j].needed || j in [id] + rest)
    {
      assert j in [id] + rest <==> j == id || j in rest;
      assert r[j] == next[j].(needed := next[j].needed || j in rest);
    }
  }

  /** When it succeeds, the component loop marks exactly the components needed and changes nothing else. */
  lemma {:induction false} MarkFromMarks(gs: seq<GlyphData>, font: seq<byte>, pos: int, remains: int)
    requires MarkFrom(gs, font, pos, remains).Success?
    ensures MarkedFrom(gs, MarkFrom(gs, font, pos, remains).value, Components(font, pos, remains))
    decreases remains
  {
    if remains > 0 {
      var flags := U16(ShortAt(font, pos));
      var id := U16(ShortAt(font, pos + 2));
      assert id < |gs|;
      var next := gs[id := gs[id].(needed := true)];
      ComponentsStep(font, pos, remains);
      if MoreComponents(flags) {
        var p, rem := pos + 4 + ArgSize(flags), remains - 4 - ArgSize(flags);
        MarkFromNext(gs, font, pos, remains);
        MarkFromMarks(next, font, p, rem);
        MarksCompose(gs, id, Components(font, p, rem), MarkFrom(next, font, p, rem).value);
      } else {
        assert MarkFrom(gs, font, pos, remains) == Success(next);
        MarksCompose(gs, id, [], next);
        assert [id] + [] == [id];
      }
    } else {
      assert MarkFrom(gs, font, pos, remains) == Success(gs);
    }
  }

  /**
   * The pass's step at glyph i: a needed glyph is read from its offset (a
   * negative one makes the seek throw) and, when composite, is flagged and
   * its components marked.
   */
  function Step(gs: seq<GlyphData>, font: seq<byte>, i: int): (r: Result<seq<GlyphData>>)
    requires 0 <= i < |gs|
    ensures r.Success? ==> |r.value| == |gs|
  {
    if !gs[i].needed then Success(gs)
    else if gs[i].offset < 0 then Failure(SEEK_ERROR)
    else if !IsComposite(font, gs[i]) then Success(gs)
    else
      MarkFrom(gs[i := gs[i].(compositeTT := true)], font, gs[i].offset + 10, gs[i].length - 10)
  }

  /** ResolveCompositeGlyphsTT from glyph i on. */
  function Resolved(gs: seq<GlyphData>, font: seq<byte>, i: nat): (r: Result<seq<GlyphData>>)
    ensures r.Success? ==> |r.value| == |gs|
    decreases |gs| - i
  {
    if i >= |gs| then Success(gs)
    else match Step(gs, font, i)
      case Failure(e) => Failure(e)
      case Success(next) => Resolved(next, font, i + 1)
  }

  /** Every field but `needed` and `compositeTT` is as it was, and needed glyphs stay needed. */
  ghost predicate Grows(gs: seq<GlyphData>, r: seq<GlyphData>)
  {
    |r| == |gs| &&
    forall j | 0 <= j < |gs| ::
      r[j] == gs[j].(needed := r[j].needed, compositeTT := r[j].compositeTT) &&
      (gs[j].needed ==> r[j].needed) && (gs[j].compositeTT ==> r[j].compositeTT)
  }

  lemma StepGrows(gs: seq<GlyphData>, font: seq<byte>, i: int)
    requires 0 <= i < |gs| && Step(gs, font, i).Success?
    ensures Grows(gs, Step(gs, font, i).value)
  {
    if gs[i].needed && IsComposite(font, gs[i]) {
      MarkFromSucceeds(gs[i := gs[i].(compositeTT := true)], font, gs[i].offset + 10, gs[i].length - 10);
      MarkFromMarks(gs[i := gs[i].(compositeTT := true)], font, gs[i].offset + 10, gs[i].length - 10);
    }
  }

  /** The pass only adds: it sets `needed` and `compositeTT`, clears neither, and changes no other field. */
  lemma {:induction false} ResolvedGrows(gs: seq<GlyphData>, font: seq<byte>, i: nat)
    requires Resolved(gs, font, i).Success?
    ensures Grows(gs, Resolved(gs, font, i).value)
    decreases |gs| - i
  {
    if i < |gs| {
      StepGrows(gs, font, i);
      ResolvedGrows(Step(gs, font, i).value, font, i + 1);
    }
  }

  /**
   * The pass seeks to every glyph needed when it reaches it: when it
   * succeeds, none of the glyphs needed from i on has a negative offset.
   */
  lemma {:induction false} ResolvedSeeks(gs: seq<GlyphData>, font: seq<byte>, i: nat)
    requires Resolved(gs, font, i).Success?
    ensures forall j | i <= j < |gs| && gs[j].needed :: gs[j].offset >= 0
    decreases |gs| - i
  {
    if i < |gs| {
      StepGrows(gs, font, i);
      ResolvedSeeks(Step(gs, font, i).value, font, i + 1);
      forall j | i < j < |gs| && gs[j].needed
        ensures gs[j].offset >= 0
      {
        assert Step(gs, font, i).value[j].needed && Step(gs, font, i).value[j].offset == gs[j].offset;
      }
    }
  }

  /** Every component of every composite glyph has a higher index than the glyph itself. */
  ghost predicate ComponentsFollow(gs: seq<GlyphData>, font: seq<byte>)
  {
    forall j | 0 <= j < |gs| && IsComposite(font, gs[j]) ::
      forall k | 0 <= k < |ComponentsOf(font, gs[j])| :: j < ComponentsOf(font, gs[j])[k]
  }

  /** Every needed composite glyph below i has its components needed. */
  ghost predicate ClosedBelow(gs: seq<GlyphData>, font: seq<byte>, i: int)
  {
    forall j | 0 <= j < i && j < |gs| && gs[j].needed && IsComposite(font, gs[j]) ::
      forall k | 0 <= k < |ComponentsOf(font, gs[j])| ::
        0 <= ComponentsOf(font, gs[j])[k] < |gs| && gs[ComponentsOf(font, gs[j])[k]].needed
  }

  /** Offsets and lengths (and so the components) do not change, and glyphs below i keep their `needed`. */
  ghost predicate SameBelow(gs: seq<GlyphData>, r: seq<GlyphData>, i: int)
  {
    |r| == |gs| &&
    forall j | 0 <= j < |gs| ::
      r[j].offset == gs[j].offset && r[j].length == gs[j].length && (j < i ==> r[j].needed == gs[j].needed)
  }

  lemma StepKeepsBelow(gs: seq<GlyphData>, font: seq<byte>, i: int)
    requires 0 <= i < |gs| && Step(gs, font, i).Success? && ComponentsFollow(gs, font)
    ensures SameBelow(gs, Step(gs, font, i).value, i + 1)
  {
    var r := Step(gs, font, i).value;
    if gs[i].needed && IsComposite(font, gs[i]) {
      var ids := ComponentsOf(font, gs[i]);
      MarkFromSucceeds(gs[i := gs[i].(compositeTT := true)], font, gs[i].offset + 10, gs[i].length - 10);
      MarkFromMarks(gs[i := gs[i].(compositeTT := true)], font, gs[i].offset + 10, gs[i].length - 10);
      forall j | 0 <= j <= i && j < |gs|
        ensures r[j].needed == gs[j].needed
      {
        assert j !in ids;
      }
    }
  }

  /** After the step at i the glyph i, if needed and composite, has its components needed. */
  lemma StepClosesAt(gs: seq<GlyphData>, font: seq<byte>, i: int)
    requires 0 <= i < |gs| && Step(gs, font, i).Success?
    ensures var r := Step(gs, font, i).value;
      gs[i].needed && IsComposite(font, gs[i]) ==>
        forall k | 0 <= k < |ComponentsOf(font, gs[i])| ::
          0 <= ComponentsOf(font, gs[i])[k] < |r| && r[ComponentsOf(font, gs[i])[k]].needed
  {
    if gs[i].needed && IsComposite(font, gs[i]) {
      var ids := ComponentsOf(font, gs[i]);
      MarkFromSucceeds(gs[i := gs[i].(compositeTT := true)], font, gs[i].offset + 10, gs[i].length - 10);
      MarkFromMarks(gs[i := gs[i].(compositeTT := true)], font, gs[i].offset + 10, gs[i].length - 10);
    }
  }

  lemma StepClosed(gs: seq<GlyphData>, font: seq<byte>, i: int)
    requires 0 <= i < |gs| && Step(gs, font, i).Success? && ComponentsFollow(gs, font)
    requires ClosedBelow(gs, font, i)
    ensures ClosedBelow(Step(gs, font, i).value, font, i + 1)
  {
    var r := Step(gs, font, i).value;
    StepGrows(gs, font, i);
    StepKeepsBelow(gs, font, i);
    StepClosesAt(gs, font, i);
    forall j | 0 <= j < i + 1 && j < |r| && r[j].needed && IsComposite(font, r[j])
      ensures forall k | 0 <= k < |ComponentsOf(font, r[j])| ::
        0 <= ComponentsOf(font, r[j])[k] < |r| && r[ComponentsOf(font, r[j])[k]].needed
    {
      assert ComponentsOf(font, r[j]) == ComponentsOf(font, gs[j]);
      assert IsComposite(font, gs[j]) && gs[j].needed;
    }
  }

  /** ComponentsFollow depends only on offsets and lengths. */
  lemma FollowKept(gs: seq<GlyphData>, r: seq<GlyphData>, font: seq<byte>)
    requires ComponentsFollow(gs, font) && SameBelow(gs, r, 0)
    ensures ComponentsFollow(r, font)
  {
    forall j | 0 <= j < |r| && IsComposite(font, r[j])
      ensures forall k | 0 <= k < |ComponentsOf(font, r[j])| :: j < ComponentsOf(font, r[j])[k]
    {
      assert ComponentsOf(font, r[j]) == ComponentsOf(font, gs[j]);
    }
  }

  lemma {:induction false} ResolvedClosedFrom(gs: seq<GlyphData>, font: seq<byte>, i: nat)
    requires Resolved(gs, font, i).Success? && ComponentsFollow(gs, font) && ClosedBelow(gs, font, i)
    ensures ClosedBelow(Resolved(gs, font, i).value, font, |gs|)
    decreases |gs| - i
  {
    if i < |gs| {
      StepKeepsBelow(gs, font, i);
      StepClosed(gs, font, i);
      var next := Step(gs, font, i).value;
      FollowKept(gs, next, font);
      ResolvedClosedFrom(next, font, i + 1);
    }
  }

  /**
   * When every component follows its composite glyph, the single forward
   * pass leaves the needed glyphs closed under "is a component of": each
   * needed composite glyph's components are needed.
   */
  lemma ResolvedClosed(gs: seq<GlyphData>, font: seq<byte>)
    requires Resolved(gs, font, 0).Success? && ComponentsFollow(gs, font)
    ensures ClosedBelow(Resolved(gs, font, 0).value, font, |gs|)
  {
    ResolvedClosedFrom(gs, font, 0);
  }

  /** A glyph record at the given offset with the given length, neither needed nor flagged. */
  function Unmarked(offset: int, length: int, needed: bool): GlyphData
  {
    GlyphData(needed, false, offset, length, 0, 0, 0, 0)
  }

  /** A font whose glyph 0 (at 0) is composite with component 1, glyph 1 (at 14) simple, glyph 2 (at 28) composite with component 0. */
  const SKIP_FONT: seq<byte> :=
    [0xFF, 0xFF, 0, 0, 0, 0, 0, 0, 0, 0,  0, 0, 0, 1,
     0, 0, 0, 0, 0, 0, 0, 0, 0, 0,  0, 0, 0, 0,
     0xFF, 0xFF, 0, 0, 0, 0, 0, 0, 0, 0,  0, 0, 0, 0]

  /** Its three glyphs, only glyph 2 needed. */
  const SKIP_GLYPHS: seq<GlyphData> := [Unmarked(0, 14, false), Unmarked(14, 14, false), Unmarked(28, 14, true)]

  lemma SkipFontReads()
    ensures IsComposite(SKIP_FONT, SKIP_GLYPHS[0]) && !IsComposite(SKIP_FONT, SKIP_GLYPHS[1]) && IsComposite(SKIP_FONT, SKIP_GLYPHS[2])
    ensures ShortAt(SKIP_FONT, 10) == 0 && ShortAt(SKIP_FONT, 12) == 1
    ensures ShortAt(SKIP_FONT, 38) == 0 && ShortAt(SKIP_FONT, 40) == 0
  {
    var font := SKIP_FONT;
    assert |font| == 42;
    assert font[0] == 0xFF && font[1] == 0xFF && font[28] == 0xFF && font[29] == 0xFF;
    assert font[14] == 0 && font[15] == 0;
    assert font[10] == 0 && font[11] == 0 && font[12] == 0 && font[13] == 1;
    assert font[38] == 0 && font[39] == 0 && font[40] == 0 && font[41] == 0;
    assert ToInt16(0xFFFF) == -1;
  }

  /** The example font has the shape BackwardComponentSkipped describes. */
  lemma SkipFontShape()
    ensures ComponentsOf(SKIP_FONT, SKIP_GLYPHS[0]) == [1] && ComponentsOf(SKIP_FONT, SKIP_GLYPHS[2]) == [0]
    ensures IsComposite(SKIP_FONT, SKIP_GLYPHS[0]) && IsComposite(SKIP_FONT, SKIP_GLYPHS[2])
  {
    SkipFontReads();
    LastComponent(SKIP_FONT, 10, 4);
    LastComponent(SKIP_FONT, 38, 4);
  }

  /** A record whose flags are all clear is the last one read. */
  lemma LastComponent(font: seq<byte>, pos: int, remains: int)
    requires remains > 0 && ShortAt(font, pos) == 0
    ensures Components(font, pos, remains) == [U16(ShortAt(font, pos + 2))]
  {
    assert U16(0) == 0 && !MoreComponents(0);
  }

  /** A needed composite glyph with an unneeded component leaves the needed glyphs open. */
  lemma OpenAt(gs: seq<GlyphData>, font: seq<byte>, j: int, k: int)
    requires 0 <= j < |gs| && gs[j].needed && IsComposite(font, gs[j])
    requires 0 <= k < |ComponentsOf(font, gs[j])|
    requires var c := ComponentsOf(font, gs[j])[k]; 0 <= c < |gs| && !gs[c].needed
    ensures !ClosedBelow(gs, font, |gs|)
  {
  }

  /** The step at a needed composite glyph whose components all name glyphs marks exactly those components. */
  lemma StepMarks(gs: seq<GlyphData>, font: seq<byte>, i: int)
    requires 0 <= i < |gs| && gs[i].needed && IsComposite(font, gs[i])
    requires AllBelow(ComponentsOf(font, gs[i]), |gs|)
    ensures Step(gs, font, i).Success?
    ensures forall j | 0 <= j < |gs| && j != i ::
      Step(gs, font, i).value[j] == gs[j].(needed := gs[j].needed || j in ComponentsOf(font, gs[i]))
  {
    var g := gs[i := gs[i].(compositeTT := true)];
    var pos, remains := gs[i].offset + 10, gs[i].length - 10;
    assert Step(gs, font, i) == MarkFrom(g, font, pos, remains);
    MarkFromSucceeds(g, font, pos, remains);
    MarkFromMarks(g, font, pos, remains);
  }

  /** The step at a needed composite glyph 2 whose only component is glyph 0. */
  lemma StepMarksOnly(gs: seq<GlyphData>, font: seq<byte>)
    requires |gs| == 3 && gs[2].needed && IsComposite(font, gs[2]) && ComponentsOf(font, gs[2]) == [0]
    ensures Step(gs, font, 2).Success?
    ensures var m := Step(gs, font, 2).value;
      m[0].needed && m[0].offset == gs[0].offset && m[0].length == gs[0].length && m[1].needed == gs[1].needed
  {
    assert AllBelow([0], 3);
    StepMarks(gs, font, 2);
  }

  /**
   * The pass is one forward sweep: a composite glyph whose only needed
   * parent comes after it is marked but never scanned, so its own
   * components stay unmarked.  Here glyph 2 (needed) has component 0,
   * whose component 1 is left out of the subset; SKIP_FONT is a font of
   * this shape.
   */
  lemma BackwardComponentSkipped(gs: seq<GlyphData>, font: seq<byte>)
    requires |gs| == 3 && !gs[0].needed && !gs[1].needed && gs[2].needed
    requires IsComposite(font, gs[0]) && ComponentsOf(font, gs[0]) == [1]
    requires IsComposite(font, gs[2]) && ComponentsOf(font, gs[2]) == [0]
    ensures Resolved(gs, font, 0).Success?
    ensures var r := Resolved(gs, font, 0).value;
      r[0].needed && IsComposite(font, r[0]) && ComponentsOf(font, r[0]) == [1] && !r[1].needed &&
      !ClosedBelow(r, font, |r|)
  {
    assert Step(gs, font, 0) == Success(gs);
    assert Step(gs, font, 1) == Success(gs);
    StepMarksOnly(gs, font);
    var m := Step(gs, font, 2).value;
    assert Resolved(gs, font, 0) == Success(m) by {
      assert Resolved(m, font, 3) == Success(m);
      assert Resolved(gs, font, 2) == Success(m);
      assert Resolved(gs, font, 1) == Success(m);
    }
    assert ComponentsOf(font, m[0]) == ComponentsOf(font, gs[0]) && IsComposite(font, m[0]) == IsComposite(font, gs[0]) by {
      assert m[0].offset == gs[0].offset && m[0].length == gs[0].length;
    }
    OpenAt(m, font, 0, 0);
  }
}
