/**
 * What BuildCFF's patches achieve.  The three placeholders of the top DICT
 * are written, each once, past the header and the Name INDEX, four bytes
 * after a 29 and at least five bytes apart; nothing written after the top
 * DICT INDEX moves them.  SetIntAtIndex therefore never runs past the
 * table, and each patched operand reads back, as ReadObjectCFF reads it,
 * as the position where its section begins, while every byte from the
 * charset on stays as written.
 */
module CffBuildFacts {
  import opened BigEndian
  import opened Outcome
  import opened Records
  import opened CffToken
  import opened CffDict
  import opened CffIndex
  import opened CffCharset
  import opened CffStrings
  import opened CffPlaced
  import opened CffBuild
  import CMapDecode

  /** An INDEX without a dictionary adds bytes and leaves the placeholders where they are. */
  lemma PlainIndex(index: seq<IndexEntry>, sids: seq<int>, font: seq<byte>, s: Out)
    requires EntriesRefsIn(index, |sids|) && !HasDict(index)
    ensures var r := IndexOut(index, sids, font, true, s);
      r.Success? ==> r.value.offsets == s.offsets && Extends(s, r.value)
  {
    var r := IndexOut(index, sids, font, true, s);
    if r.Success? {
      forall tag
        ensures TagCount(IndexObject(index), tag) == 0
      {
        NoDictNoTags(index, tag);
      }
      IndexPlaced(index, sids, font, true, s);
      assert r.value.offsets == s.offsets;
      IndexExtends(index, sids, font, s);
    }
  }

  /** WriteIndexCFF only appends. */
  lemma IndexExtends(index: seq<IndexEntry>, sids: seq<int>, font: seq<byte>, s: Out)
    requires EntriesRefsIn(index, |sids|)
    ensures var r := IndexOut(index, sids, font, true, s);
      r.Success? ==> Extends(s, r.value)
  {
    if index != [] && IndexOut(index, sids, font, true, s).Success? {
      var e := DataFrom(index, sids, font, Out([], s.offsets), []).value;
      var header := IndexHeader(|index|, IndexOffsets(e.1, true));
      IndexOutAround(index, sids, font, true, s, e.0, e.1, header);
    }
  }

  /** A DICT copied from operands holds no placeholder. */
  lemma {:induction false} PlainValues(d: seq<(int, Operand)>, tag: nat)
    ensures TagCount(Values(DictObjects(d)), tag) == 0
    decreases |d|
  {
    var c := DictObjects(d);
    if d == [] {
      assert Values(c).items == [];
    } else {
      DictObjectsFront(d);
      ValuesSplit(c);
      PlainValues(d[1..], tag);
      if d[0].1.Array? {
        PlainItems(ObjectOf(d[0].1).items, tag);
      }
    }
  }

  /** Writing the private DICT adds bytes and leaves the placeholders where they are. */
  lemma PlainPrivate(p: seq<(int, Operand)>, sids: seq<int>, s: Out)
    ensures DictRefsIn(DictObjects(p), |sids|)
    ensures var r := EmitDict(DictObjects(p), sids, s);
      r.Success? ==> r.value.offsets == s.offsets && Extends(s, r.value)
  {
    ObjectsRefsIn(p, |sids|);
    var r := EmitDict(DictObjects(p), sids, s);
    if r.Success? {
      forall tag
        ensures TagCount(Values(DictObjects(p)), tag) == 0
      {
        PlainValues(p, tag);
      }
      DictRecorded(DictObjects(p), sids, s);
      assert r.value.offsets == s.offsets;
    }
  }

  /** The placeholders BuildCFF patches: the charset's and the CharStrings', and the private DICT's when the font has one. */
  predicate InUse(tag: nat, hasPrivate: bool)
  {
    tag == CHARSET_TAG || tag == CHARSTRINGS_TAG || (tag == PRIVATE_TAG && hasPrivate)
  }

  /**
   * A stream after the top DICT INDEX: it starts with the header, and each
   * placeholder in use has a slot of its own past the header.
   */
  ghost predicate Placed(o: Out, hasPrivate: bool)
  {
    && |o.bytes| >= |HEADER| && o.bytes[..|HEADER|] == HEADER
    && (forall tag: nat :: tag in o.offsets <==> InUse(tag, hasPrivate))
    && (forall tag | tag in o.offsets :: |HEADER| < o.offsets[tag] && Slot(o.bytes, o.offsets[tag]))
    && (forall a, b | a in o.offsets && b in o.offsets && a != b :: o.offsets[a] != o.offsets[b])
  }

  /** Appending bytes keeps the slots. */
  lemma PlacedKept(o: Out, t: Out, hasPrivate: bool)
    requires Placed(o, hasPrivate) && Extends(o, t) && t.offsets == o.offsets
    ensures Placed(t, hasPrivate)
  {
    assert t.bytes == o.bytes + t.bytes[|o.bytes|..];
    forall tag | tag in t.offsets
      ensures Slot(t.bytes, t.offsets[tag])
    {
      SlotKept(o.bytes, t.bytes[|o.bytes|..], o.offsets[tag]);
    }
    assert t.bytes[..|HEADER|] == o.bytes[..|HEADER|];
  }

  /** The top DICT INDEX holds each placeholder in use once, and no other. */
  lemma TopTags(d: seq<(int, CffObject)>, keys: set<int>, tag: nat)
    requires DistinctKeys(d) && TagsOn(d, PLACED) && Keys(d) == keys + {CHARSET, CHARSTRINGS} - {ENCODING}
    ensures TagCount(IndexObject([DictEntry(d)]), tag) == if InUse(tag, PRIVATE in keys) then 1 else 0
  {
    OneDictTags(d, tag);
    ValuesTags(d, tag);
    assert (TagKey(tag) in PLACED && TagKey(tag) in Keys(d)) == InUse(tag, PRIVATE in keys);
  }

  /** After the top DICT INDEX the placeholders in use have their own slots, and the later INDEXes keep them. */
  lemma FrontPlaced(font: seq<byte>, d: seq<(int, CffObject)>, strings: seq<string>, name: string, gsubrs: seq<IndexEntry>,
                    sids: seq<int>, hasPrivate: bool)
    requires DictRefsIn(d, |sids|) && Spans(gsubrs)
    requires forall tag :: TagCount(IndexObject([DictEntry(d)]), tag) == if InUse(tag, hasPrivate) then 1 else 0
    ensures var f := FrontOut(font, d, strings, name, gsubrs, sids);
      f.Success? ==> Placed(f.value, hasPrivate)
  {
    var f := FrontOut(font, d, strings, name, gsubrs, sids);
    if f.Success? {
      var s0 := Out(HEADER, map[]);
      var names := [Text(SUBSET_PREFIX + name)];
      assert !HasDict(names);
      PlainIndex(names, sids, font, s0);
      var s1 := IndexOut(names, sids, font, true, s0).value;
      var top := [DictEntry(d)];
      IndexPlaced(top, sids, font, true, s1);
      IndexExtends(top, sids, font, s1);
      var s2 := IndexOut(top, sids, font, true, s1).value;
      assert Placed(s2, hasPrivate) by {
        assert s2.bytes[..|HEADER|] == s1.bytes[..|HEADER|];
      }
      assert !HasDict(Texts(strings));
      PlainIndex(Texts(strings), sids, font, s2);
      var s3 := IndexOut(Texts(strings), sids, font, true, s2).value;
      PlacedKept(s2, s3, hasPrivate);
      assert !HasDict(gsubrs);
      PlainIndex(gsubrs, sids, font, s3);
      PlacedKept(s3, f.value, hasPrivate);
    }
  }

  /** Extends is transitive. */
  lemma ExtendsThen(s: Out, t: Out, u: Out)
    requires Extends(s, t) && Extends(t, u)
    ensures Extends(s, u)
  {
    assert u.bytes[..|s.bytes|] == u.bytes[..|t.bytes|][..|s.bytes|];
  }

  /** The private DICT and its subroutines add bytes and leave the placeholders where they are. */
  lemma PrivateKeeps(font: seq<byte>, s: Out, sids: seq<int>, priv: Option<seq<(int, Operand)>>, origLen: int,
                     privSubrs: Option<seq<IndexEntry>>)
    requires privSubrs.Some? ==> Spans(privSubrs.value)
    ensures var r := PrivateOut(font, s, sids, priv, origLen, privSubrs);
      r.Success? ==> r.value.offsets == s.offsets && Extends(s, r.value)
  {
    if priv.Some? && PrivateOut(font, s, sids, priv, origLen, privSubrs).Success? {
      PlainPrivate(priv.value, sids, s);
      var t := EmitDict(DictObjects(priv.value), sids, s).value;
      if privSubrs.Some? {
        assert !HasDict(privSubrs.value);
        PlainIndex(privSubrs.value, sids, font, t);
        ExtendsThen(s, t, IndexOut(privSubrs.value, sids, font, true, t).value);
      }
    }
  }

  /**
   * After the global subroutines BuildCFF writes the charset where it
   * notes the charset's position, then the CharStrings INDEX, which holds
   * exactly NewGlyphCount glyphs, then the private DICT; none of it moves
   * a placeholder.
   */
  lemma BackKeeps(font: seq<byte>, front: Out, sids: seq<int>, glyphs: seq<GlyphData>, count: int,
                  priv: Option<seq<(int, Operand)>>, origLen: int, privSubrs: Option<seq<IndexEntry>>)
    requires privSubrs.Some? ==> Spans(privSubrs.value)
    ensures var b := BackOut(font, front, sids, glyphs, count, priv, origLen, privSubrs);
      b.Success? ==>
        var l := b.value;
        && l.front == front && l.charset == |front.bytes| && l.out.offsets == front.offsets && Extends(front, l.out)
        && l.charset <= l.charStrings <= l.privateDict <= |l.out.bytes|
        && CharsetOut(glyphs, sids).Success? && l.out.bytes[l.charset..l.charStrings] == CharsetOut(glyphs, sids).value
        && count == |NeededEntries(glyphs)|
  {
    var b := BackOut(font, front, sids, glyphs, count, priv, origLen, privSubrs);
    if b.Success? {
      var l := b.value;
      var cs := CharsetOut(glyphs, sids).value;
      var s5 := Out(front.bytes + cs, front.offsets);
      var subset := GlyphArray(glyphs, count).value;
      CharStringsCount(glyphs, count, sids, font, s5);
      assert !HasDict(subset);
      PlainIndex(subset, sids, font, s5);
      var s6 := IndexOut(subset, sids, font, true, s5).value;
      PrivateKeeps(font, s6, sids, priv, origLen, privSubrs);
      ExtendsThen(s5, s6, l.out);
      ExtendsThen(front, s5, l.out);
      assert l.out.bytes[..|s5.bytes|] == s5.bytes;
      assert l.out.bytes[l.charset..l.charStrings] == s5.bytes[|front.bytes|..];
    }
  }

  /** The (int) cast keeps a length below 2^31. */
  lemma SmallInt(n: int)
    requires 0 <= n < 0x8000_0000
    ensures ToInt32(n) == n
  {
  }

  /**
   * The check BuildCFF makes after the private DICT: on a table shorter than
   * 2^31 bytes, once it passes, the DICT takes exactly origPrivateDictLen
   * bytes from where the private DICT's position was noted, so the size
   * operand kept in front of the private placeholder is still right.
   */
  lemma PrivateFits(font: seq<byte>, s: Out, sids: seq<int>, p: seq<(int, Operand)>, origLen: int, privSubrs: Option<seq<IndexEntry>>)
    requires privSubrs.Some? ==> Spans(privSubrs.value)
    requires PrivateOut(font, s, sids, Some(p), origLen, privSubrs).Success?
    requires |PrivateOut(font, s, sids, Some(p), origLen, privSubrs).value.bytes| < 0x8000_0000
    ensures DictRefsIn(DictObjects(p), |sids|)
    ensures var t := EmitDict(DictObjects(p), sids, s);
      var r := PrivateOut(font, s, sids, Some(p), origLen, privSubrs).value;
      t.Success? && |t.value.bytes| == |s.bytes| + origLen <= |r.bytes| && r.bytes[..|t.value.bytes|] == t.value.bytes
  {
    PlainPrivate(p, sids, s);
    var t := EmitDict(DictObjects(p), sids, s).value;
    var r := PrivateOut(font, s, sids, Some(p), origLen, privSubrs).value;
    if privSubrs.Some? {
      IndexExtends(privSubrs.value, sids, font, t);
    }
    assert |t.bytes| <= |r.bytes|;
    SmallInt(|t.bytes|);
    SmallInt(|s.bytes|);
    SmallInt(|t.bytes| - |s.bytes|);
  }

  // ---------------------------------------------------------------- the patches

  /** The operand at `at`: a 29 and then the four bytes of v. */
  predicate Written(bytes: seq<byte>, at: int, v: int)
  {
    1 <= at && at + 4 <= |bytes| && bytes[at - 1] == 29 && bytes[at..at + 4] == IntBytes(v)
  }

  /** Two slots lie at least five bytes apart: a slot's four bytes are zero, so none of them is the 29 of another. */
  lemma SlotsApart(bytes: seq<byte>, x: int, y: int)
    requires Slot(bytes, x) && Slot(bytes, y) && x != y
    ensures x + 5 <= y || y + 5 <= x
  {
    SlotZeros(bytes, x);
    SlotZeros(bytes, y);
  }

  /** A slot's four bytes are zero. */
  lemma SlotZeros(bytes: seq<byte>, x: int)
    requires Slot(bytes, x)
    ensures forall k | x <= k < x + 4 :: bytes[k] == 0
  {
    forall k | x <= k < x + 4
      ensures bytes[k] == 0
    {
      assert bytes[k] == bytes[x..x + 4][k - x] == IntBytes(0)[k - x];
    }
  }

  /** SetIntAtIndex at `at` writes the operand there, and leaves an operand five bytes away or more alone. */
  lemma PatchWritten(bytes: seq<byte>, at: int, v: int, y: int, w: int)
    requires 1 <= at && at + 4 <= |bytes| && bytes[at - 1] == 29
    requires Written(bytes, y, w) && (at + 5 <= y || y + 5 <= at)
    ensures Written(Patch(bytes, at, v).value, at, v) && Written(Patch(bytes, at, v).value, y, w)
  {
    var r := Patch(bytes, at, v).value;
    assert r[y..y + 4] == bytes[y..y + 4] by {
      forall i | y <= i < y + 4
        ensures r[i] == bytes[i]
      {
      }
    }
  }

  /** ReadObjectCFF reads the operand SetIntAtIndex wrote as the 32-bit value, and stops after it. */
  lemma ReadsWritten(bytes: seq<byte>, at: int, v: int)
    requires Written(bytes, at, v) && IsInt32(v)
    ensures OperandReads(bytes, at, v)
  {
    assert CMapDecode.ByteOr0(bytes, at - 1) == 29;
    assert CMapDecode.ByteOr0(bytes, at) == ByteAt(v, 3) && CMapDecode.ByteOr0(bytes, at + 1) == ByteAt(v, 2) by {
      assert bytes[at] == bytes[at..at + 4][0] && bytes[at + 1] == bytes[at..at + 4][1];
    }
    assert CMapDecode.ByteOr0(bytes, at + 2) == ByteAt(v, 1) && CMapDecode.ByteOr0(bytes, at + 3) == ByteAt(v, 0) by {
      assert bytes[at + 2] == bytes[at..at + 4][2] && bytes[at + 3] == bytes[at..at + 4][3];
    }
    FiveByteValue(v);
  }

  // ---------------------------------------------------------------- the whole table

  /**
   * The stream BuildCFF writes before its patches: each placeholder in use
   * has its own slot before the charset, nothing after the top DICT INDEX
   * moves one, and the charset, the CharStrings INDEX and the private DICT
   * follow one another.
   */
  lemma LayoutPlaced(font: seq<byte>, top: seq<(int, Operand)>, values: seq<string>, name: string, gsubrs: seq<IndexEntry>,
                     glyphs: seq<GlyphData>, count: int, priv: Option<seq<(int, Operand)>>, privSubrs: Option<seq<IndexEntry>>)
    requires TopShape(top) && Spans(gsubrs) && (privSubrs.Some? ==> Spans(privSubrs.value))
    requires CffLayout(font, top, values, name, gsubrs, glyphs, count, priv, privSubrs).Success?
    ensures var l := CffLayout(font, top, values, name, gsubrs, glyphs, count, priv, privSubrs).value;
      Placed(l.front, PRIVATE in Keys(top)) && l.out.offsets == l.front.offsets && Extends(l.front, l.out) &&
      l.charset == |l.front.bytes| <= l.charStrings <= l.privateDict <= |l.out.bytes|
  {
    var n := |values|;
    var d := TopDict(top, n).value;
    var hasPrivate := PRIVATE in Keys(top);
    forall tag: nat
      ensures TagCount(IndexObject([DictEntry(d)]), tag) == if InUse(tag, hasPrivate) then 1 else 0
    {
      TopTags(d, Keys(top), tag);
    }
    FrontPlaced(font, d, SubsetStrings(values, name), name, gsubrs, SameSids(n), hasPrivate);
    var front := FrontOut(font, d, SubsetStrings(values, name), name, gsubrs, SameSids(n)).value;
    BackKeeps(font, front, SameSids(n), glyphs, count, priv, OrigPrivateLen(top, n), privSubrs);
  }

  /** A patch before `from` leaves the bytes from `from` on, and the length, as they were. */
  lemma PatchKeepsTail(bytes: seq<byte>, at: int, v: int, from: int)
    requires 1 <= at && at + 4 <= from <= |bytes|
    ensures Patch(bytes, at, v).Success?
    ensures |Patch(bytes, at, v).value| == |bytes| && Patch(bytes, at, v).value[from..] == bytes[from..]
  {
  }

  /** The operand of the placeholder at `at`, read as ReadObjectCFF reads it, is the 32-bit value v, and the reader stops after it. */
  predicate OperandReads(b: seq<byte>, at: int, v: int)
  {
    1 <= at && ReadObject(b, at - 1) == Success((Int(v), at + 4))
  }

  /**
   * What the patches leave in the table b: the stream's length and every
   * byte from the charset on, and each patched operand the position where
   * its section begins.
   */
  ghost predicate PatchesLanded(l: Layout, withPrivate: bool, b: seq<byte>)
  {
    var m := l.out.offsets;
    && 0 <= l.charset <= |l.out.bytes| && |b| == |l.out.bytes| && b[l.charset..] == l.out.bytes[l.charset..]
    && OperandReads(b, OffsetOf(m, CHARSET_TAG), l.charset)
    && OperandReads(b, OffsetOf(m, CHARSTRINGS_TAG), l.charStrings)
    && (withPrivate ==> OperandReads(b, OffsetOf(m, PRIVATE_TAG), l.privateDict))
  }

  /** PatchesLanded, from the operands written into b. */
  lemma Landed(l: Layout, withPrivate: bool, b: seq<byte>)
    requires 0 <= l.charset <= |l.out.bytes| && |b| == |l.out.bytes| && b[l.charset..] == l.out.bytes[l.charset..]
    requires 0 <= l.charset < 0x8000_0000 && 0 <= l.charStrings < 0x8000_0000
    requires withPrivate ==> 0 <= l.privateDict < 0x8000_0000
    requires Written(b, OffsetOf(l.out.offsets, CHARSET_TAG), l.charset)
    requires Written(b, OffsetOf(l.out.offsets, CHARSTRINGS_TAG), l.charStrings)
    requires withPrivate ==> Written(b, OffsetOf(l.out.offsets, PRIVATE_TAG), l.privateDict)
    ensures PatchesLanded(l, withPrivate, b)
  {
    ReadsWritten(b, OffsetOf(l.out.offsets, CHARSET_TAG), l.charset);
    ReadsWritten(b, OffsetOf(l.out.offsets, CHARSTRINGS_TAG), l.charStrings);
    if withPrivate {
      ReadsWritten(b, OffsetOf(l.out.offsets, PRIVATE_TAG), l.privateDict);
    }
  }

  /** The placeholders in use have slots of the stream before the charset, at least five bytes apart. */
  lemma SlotsBefore(l: Layout, hasPrivate: bool)
    requires Placed(l.front, hasPrivate)
    requires l.out.offsets == l.front.offsets && Extends(l.front, l.out) && l.charset == |l.front.bytes|
    ensures var x, y := OffsetOf(l.out.offsets, CHARSET_TAG), OffsetOf(l.out.offsets, CHARSTRINGS_TAG);
      Slot(l.out.bytes, x) && Slot(l.out.bytes, y) && x + 4 <= l.charset && y + 4 <= l.charset && (x + 5 <= y || y + 5 <= x)
    ensures var x, y, z := OffsetOf(l.out.offsets, CHARSET_TAG), OffsetOf(l.out.offsets, CHARSTRINGS_TAG), OffsetOf(l.out.offsets, PRIVATE_TAG);
      hasPrivate ==> Slot(l.out.bytes, z) && z + 4 <= l.charset && (x + 5 <= z || z + 5 <= x) && (y + 5 <= z || z + 5 <= y)
  {
    var m := l.out.offsets;
    var b0 := l.out.bytes;
    var front := l.front.bytes;
    assert b0 == front + b0[|front|..];
    assert InUse(CHARSET_TAG, hasPrivate) && InUse(CHARSTRINGS_TAG, hasPrivate);
    var x, y, z := OffsetOf(m, CHARSET_TAG), OffsetOf(m, CHARSTRINGS_TAG), OffsetOf(m, PRIVATE_TAG);
    SlotKept(front, b0[|front|..], x);
    SlotKept(front, b0[|front|..], y);
    SlotsApart(b0, x, y);
    if hasPrivate {
      assert InUse(PRIVATE_TAG, hasPrivate);
      SlotKept(front, b0[|front|..], z);
      SlotsApart(b0, x, z);
      SlotsApart(b0, y, z);
    }
  }

  /** One patch before `from`: the operand at `at` is written, another operand stays, and so do the bytes from `from` on. */
  lemma PatchStep(bytes: seq<byte>, at: int, v: int, from: int, y: int, w: int)
    requires 1 <= at && at + 4 <= from <= |bytes| && bytes[at - 1] == 29
    requires Written(bytes, y, w) && (at + 5 <= y || y + 5 <= at)
    ensures Patch(bytes, at, v).Success?
    ensures var c := Patch(bytes, at, v).value;
      |c| == |bytes| && c[from..] == bytes[from..] && Written(c, at, v) && Written(c, y, w)
  {
    PatchKeepsTail(bytes, at, v, from);
    PatchWritten(bytes, at, v, y, w);
  }

  /** The two patches of a font without a private DICT. */
  lemma PatchesTwo(l: Layout) returns (b: seq<byte>)
    requires l.charset <= l.charStrings <= |l.out.bytes| < 0x8000_0000
    requires var x, y := OffsetOf(l.out.offsets, CHARSET_TAG), OffsetOf(l.out.offsets, CHARSTRINGS_TAG);
      Slot(l.out.bytes, x) && Slot(l.out.bytes, y) && x + 4 <= l.charset && y + 4 <= l.charset && (x + 5 <= y || y + 5 <= x)
    ensures Patched(l, false) == Success(b) && PatchesLanded(l, false, b)
  {
    var m := l.out.offsets;
    var b0 := l.out.bytes;
    var x, y := OffsetOf(m, CHARSET_TAG), OffsetOf(m, CHARSTRINGS_TAG);
    var v1, v2 := l.charset, l.charStrings;
    SmallInt(v1);
    SmallInt(v2);
    PatchStep(b0, x, v1, l.charset, y, 0);
    var b1 := Patch(b0, x, v1).value;
    PatchStep(b1, y, v2, l.charset, x, v1);
    var b2 := Patch(b1, y, v2).value;
    assert Patched(l, false) == Success(b2);
    Landed(l, false, b2);
    b := b2;
  }

  /** The three patches of a font with a private DICT. */
  lemma PatchesThree(l: Layout) returns (b: seq<byte>)
    requires l.charset <= l.charStrings <= l.privateDict <= |l.out.bytes| < 0x8000_0000
    requires var x, y, z := OffsetOf(l.out.offsets, CHARSET_TAG), OffsetOf(l.out.offsets, CHARSTRINGS_TAG), OffsetOf(l.out.offsets, PRIVATE_TAG);
      Slot(l.out.bytes, x) && Slot(l.out.bytes, y) && Slot(l.out.bytes, z) &&
      x + 4 <= l.charset && y + 4 <= l.charset && z + 4 <= l.charset &&
      (x + 5 <= y || y + 5 <= x) && (x + 5 <= z || z + 5 <= x) && (y + 5 <= z || z + 5 <= y)
    ensures Patched(l, true) == Success(b) && PatchesLanded(l, true, b)
  {
    var m := l.out.offsets;
    var b0 := l.out.bytes;
    var x, y, z := OffsetOf(m, CHARSET_TAG), OffsetOf(m, CHARSTRINGS_TAG), OffsetOf(m, PRIVATE_TAG);
    var v1, v2, v3 := l.charset, l.charStrings, l.privateDict;
    SmallInt(v1);
    SmallInt(v2);
    SmallInt(v3);
    PatchStep(b0, x, v1, l.charset, y, 0);
    PatchStep(b0, x, v1, l.charset, z, 0);
    var b1 := Patch(b0, x, v1).value;
    PatchStep(b1, y, v2, l.charset, x, v1);
    PatchStep(b1, y, v2, l.charset, z, 0);
    var b2 := Patch(b1, y, v2).value;
    PatchStep(b2, z, v3, l.charset, x, v1);
    PatchStep(b2, z, v3, l.charset, y, v2);
    var b3 := Patch(b2, z, v3).value;
    assert Patched(l, true) == Success(b3);
    Landed(l, true, b3);
    b := b3;
  }

  /** The patches on a stream whose slots lie before the charset land as PatchesLanded says. */
  lemma PatchesRead(l: Layout, hasPrivate: bool, withPrivate: bool) returns (b: seq<byte>)
    requires Placed(l.front, hasPrivate) && (withPrivate ==> hasPrivate)
    requires l.out.offsets == l.front.offsets && Extends(l.front, l.out)
    requires l.charset == |l.front.bytes| <= l.charStrings <= l.privateDict <= |l.out.bytes| < 0x8000_0000
    ensures Patched(l, withPrivate) == Success(b) && PatchesLanded(l, withPrivate, b)
  {
    SlotsBefore(l, hasPrivate);
    if withPrivate {
      b := PatchesThree(l);
    } else {
      b := PatchesTwo(l);
    }
  }

  /**
   * BuildCFF's table, when its stream is shorter than 2^31 bytes and the
   * font has a private DICT only with a PRIVATE key in its top DICT: it is
   * the stream with its patches, SetIntAtIndex never runs past the array,
   * and the patches land as PatchesLanded says.
   */
  lemma CffPatchesRead(font: seq<byte>, top: seq<(int, Operand)>, values: seq<string>, name: string, gsubrs: seq<IndexEntry>,
                       glyphs: seq<GlyphData>, count: int, priv: Option<seq<(int, Operand)>>, privSubrs: Option<seq<IndexEntry>>,
                       l: Layout)
    requires TopShape(top) && Spans(gsubrs) && (privSubrs.Some? ==> Spans(privSubrs.value))
    requires priv.Some? ==> PRIVATE in Keys(top)
    requires CffLayout(font, top, values, name, gsubrs, glyphs, count, priv, privSubrs) == Success(l)
    requires |l.out.bytes| < 0x8000_0000
    ensures CffOut(font, top, values, name, gsubrs, glyphs, count, priv, privSubrs) == Patched(l, priv.Some?)
    ensures Patched(l, priv.Some?).Success? && PatchesLanded(l, priv.Some?, Patched(l, priv.Some?).value)
  {
    LayoutPlaced(font, top, values, name, gsubrs, glyphs, count, priv, privSubrs);
    var b := PatchesRead(l, PRIVATE in Keys(top), priv.Some?);
  }
}
