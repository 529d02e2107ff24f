/**
 * OpenTypeFont.BuildGlyphsTT: the new 'glyf' table of a TrueType subset.
 * The needed glyphs are written one after the other, each padded to a
 * multiple of four bytes; a simple glyph is copied as it is, and a
 * composite glyph has the glyph index in each of its component records
 * replaced by the new index of that component (OpenType 'glyf' table,
 * composite glyph description).
 *
 * Composite glyphs of at most 256 bytes are read into one buffer shared
 * by the whole pass; a read past the end of the input leaves that
 * buffer's earlier bytes in place, so the buffer is part of the state.
 */
module GlyphsTT {
  import opened BigEndian
  import opened Outcome
  import opened Records
  import Composite
  import CMapDecode
  import Checksum
  import Writer
  import Loca
  import Tables
  import Sfnt

  /** The size of the buffer BuildGlyphsTT shares between composite glyphs. */
  const GLYPH_BUFFER_SIZE: int := 256

  // ---------------------------------------------------------------- the component records

  /**
   * The component loop of BuildGlyphsTT over the bytes of one composite
   * glyph, from the record at index on while a whole record header (flags
   * and glyph index) fits: the glyph index is replaced by the `(short)`
   * new index of the glyph it names (an index past the glyph list makes
   * the source throw), and the loop stops after a record without
   * MORE_COMPONENTS.
   */
  function Patched(gs: seq<GlyphData>, arr: seq<byte>, index: int): (r: Result<seq<byte>>)
    requires 0 <= index
    ensures r.Success? ==> |r.value| == |arr|
    decreases |arr| - index
  {
    if index > |arr| - 4 then Success(arr)
    else
      var flags := CMapDecode.ShortAt(arr, index);
      var id := CMapDecode.U16(CMapDecode.ShortAt(arr, index + 2));
      if id >= |gs| then Failure(Composite.LIST_INDEX_ERROR)
      else
        var stuffed := arr[..index + 2] + ShortBytes(ToInt16(gs[id].newIndex)) + arr[index + 4..];
        if !Composite.MoreComponents(flags) then Success(stuffed)
        else Patched(gs, stuffed, index + 4 + Composite.ArgSize(flags))
  }

  /** Nothing before index changes (nothing at all when index is past the end). */
  lemma {:induction false} PatchedPrefix(gs: seq<GlyphData>, arr: seq<byte>, index: int)
    requires 0 <= index && Patched(gs, arr, index).Success?
    ensures var m := if index <= |arr| then index else |arr|;
      Patched(gs, arr, index).value[..m] == arr[..m]
    decreases |arr| - index
  {
    if index <= |arr| - 4 {
      var flags := CMapDecode.ShortAt(arr, index);
      var id := CMapDecode.U16(CMapDecode.ShortAt(arr, index + 2));
      var stuffed := arr[..index + 2] + ShortBytes(ToInt16(gs[id].newIndex)) + arr[index + 4..];
      assert stuffed[..index] == arr[..index];
      if Composite.MoreComponents(flags) {
        var next := index + 4 + Composite.ArgSize(flags);
        PatchedPrefix(gs, stuffed, next);
        var r := Patched(gs, stuffed, next).value;
        var m := if next <= |arr| then next else |arr|;
        assert r[..index] == r[..m][..index];
      }
    }
  }

  /**
   * What the loop does to the record at index: the bytes before its glyph
   * index stay, and the glyph index becomes the new index of the glyph it
   * named.
   */
  lemma PatchedRecord(gs: seq<GlyphData>, arr: seq<byte>, index: int)
    requires 0 <= index <= |arr| - 4 && Patched(gs, arr, index).Success?
    ensures var r, id := Patched(gs, arr, index).value, CMapDecode.U16(CMapDecode.ShortAt(arr, index + 2));
      id < |gs| && r[..index + 2] == arr[..index + 2] &&
      r[index + 2..index + 4] == ShortBytes(ToInt16(gs[id].newIndex))
  {
    var flags := CMapDecode.ShortAt(arr, index);
    var id := CMapDecode.U16(CMapDecode.ShortAt(arr, index + 2));
    var stuffed := arr[..index + 2] + ShortBytes(ToInt16(gs[id].newIndex)) + arr[index + 4..];
    assert stuffed[..index + 2] == arr[..index + 2];
    assert stuffed[index + 2..index + 4] == ShortBytes(ToInt16(gs[id].newIndex));
    if Composite.MoreComponents(flags) {
      var next := index + 4 + Composite.ArgSize(flags);
      PatchedPrefix(gs, stuffed, next);
      var r := Patched(gs, stuffed, next).value;
      var m := if next <= |arr| then next else |arr|;
      assert r[..index + 4] == r[..m][..index + 4];
      assert r[..index + 4] == stuffed[..index + 4];
      assert r[..index + 2] == r[..index + 4][..index + 2];
      assert r[index + 2..index + 4] == r[..index + 4][index + 2..];
    }
  }

  /** The glyph index of a patched record reads back as the component's new index, as a short. */
  lemma PatchedReadBack(gs: seq<GlyphData>, arr: seq<byte>, index: int)
    requires 0 <= index <= |arr| - 4 && Patched(gs, arr, index).Success?
    ensures var id := CMapDecode.U16(CMapDecode.ShortAt(arr, index + 2));
      id < |gs| && CMapDecode.ShortAt(Patched(gs, arr, index).value, index + 2) == ToInt16(gs[id].newIndex)
  {
    PatchedRecord(gs, arr, index);
    var r := Patched(gs, arr, index).value;
    var n := ToInt16(gs[CMapDecode.U16(CMapDecode.ShortAt(arr, index + 2))].newIndex);
    GetShortOfShortBytes([], n);
    assert [] + ShortBytes(n) == ShortBytes(n);
    CMapDecode.ShortAtInRange(ShortBytes(n), 0);
    ToInt16Unique(n, n);
    assert r[index + 2] == ShortBytes(n)[0] && r[index + 3] == ShortBytes(n)[1];
  }

  /** Stuffing bytes within the first length bytes of a buffer leaves the rest alone. */
  lemma StuffWithin(all: seq<byte>, at: nat, s: seq<byte>, length: nat)
    requires at + |s| <= length <= |all|
    ensures var b := all[..length];
      (all[..at] + s + all[at + |s|..])[..length] == b[..at] + s + b[at + |s|..]
    ensures (all[..at] + s + all[at + |s|..])[length..] == all[length..]
  {
  }

  /** GetShort on the whole array reads what ShortAt reads on its first length bytes. */
  lemma ShortWithin(all: seq<byte>, length: nat, p: int)
    requires 0 <= p && p + 2 <= length <= |all|
    ensures GetShort(all, p) == CMapDecode.ShortAt(all[..length], p)
  {
    CMapDecode.ShortAtInRange(all, p);
  }

  /** One record of the component loop: the record at index decides between failing, stopping and going on. */
  lemma PatchUnfold(gs: seq<GlyphData>, arr: seq<byte>, index: int)
    requires 0 <= index <= |arr| - 4
    ensures var flags, id := CMapDecode.ShortAt(arr, index), CMapDecode.U16(CMapDecode.ShortAt(arr, index + 2));
      if id >= |gs| then Patched(gs, arr, index) == Failure(Composite.LIST_INDEX_ERROR)
      else
        var stuffed := arr[..index + 2] + ShortBytes(ToInt16(gs[id].newIndex)) + arr[index + 4..];
        Patched(gs, arr, index) ==
          if Composite.MoreComponents(flags) then Patched(gs, stuffed, index + 4 + Composite.ArgSize(flags))
          else Success(stuffed)
  {
  }

  /**
   * One pass of the component loop at index: fails on a glyph index past
   * the list, otherwise stuffs the new index and either stops (no
   * MORE_COMPONENTS) or gives the index of the next record.
   */
  method PatchRecord(gs: seq<GlyphData>, arr: array<byte>, length: int, index: int)
    returns (stop: bool, r: Result<()>, next: int)
    requires 0 <= index <= length - 4 && length <= arr.Length
    modifies arr
    ensures arr[length..] == old(arr[length..])
    ensures stop && r.Failure? ==> Patched(gs, old(arr[..length]), index) == Failure(r.error)
    ensures stop && r.Success? ==> Patched(gs, old(arr[..length]), index) == Success(arr[..length])
    ensures !stop ==> index < next && Patched(gs, old(arr[..length]), index) == Patched(gs, arr[..length], next)
  {
    ghost var all := arr[..];
    var flags := GetShort(arr[..], index);
    var glyphId := GetShort(arr[..], index + 2) % TWO_16;
    ShortWithin(all, length, index);
    ShortWithin(all, length, index + 2);
    PatchUnfold(gs, all[..length], index);
    if glyphId >= |gs| {
      return true, Failure(Composite.LIST_INDEX_ERROR), index;
    }
    StuffShort(arr, index + 2, ToInt16(gs[glyphId].newIndex));
    StuffWithin(all, index + 2, ShortBytes(ToInt16(gs[glyphId].newIndex)), length);
    if !Composite.MoreComponents(flags) {
      return true, Success(()), index;
    }
    return false, Success(()), index + 4 + Composite.ArgSize(flags);
  }

  /** The component loop, in place on arr's first length bytes. */
  method PatchComponents(gs: seq<GlyphData>, arr: array<byte>, length: int) returns (r: Result<()>)
    requires 0 <= length <= arr.Length
    modifies arr
    ensures var p := Patched(gs, old(arr[..length]), 10);
      r.Success? == p.Success? && (r.Failure? ==> r.error == p.error) &&
      (r.Success? ==> arr[..length] == p.value && arr[length..] == old(arr[length..]))
  {
    var index := 10;
    while index <= length - 4
      invariant 10 <= index
      invariant Patched(gs, arr[..length], index) == Patched(gs, old(arr[..length]), 10)
      invariant arr[length..] == old(arr[length..])
      decreases length - index
    {
      var stop, status, next := PatchRecord(gs, arr, length, index);
      if stop {
        return status;
      }
      index := next;
    }
    return Success(());
  }

  // ---------------------------------------------------------------- one glyph

  /**
   * Stream.Read of length bytes from offset into arr: the bytes the input
   * still has, and arr's own bytes after them.
   */
  function ReadInto(font: seq<byte>, offset: int, length: int, arr: seq<byte>): (r: seq<byte>)
    requires 0 <= offset && 0 <= length <= |arr|
    ensures |r| == |arr|
  {
    var n := Writer.Available(font, offset, length);
    (if n > 0 then font[offset..offset + n] else []) + arr[n..]
  }

  /** Within the input a read gives the input's bytes, whatever arr held. */
  lemma ReadInBounds(font: seq<byte>, offset: int, length: int, arr: seq<byte>)
    requires 0 <= offset && 0 <= length <= |arr| && offset + length <= |font|
    ensures ReadInto(font, offset, length, arr)[..length] == font[offset..offset + length]
  {
  }

  /** What writing a glyph leaves: the output so far and the shared buffer. */
  datatype GlyfState = GlyfState(out: seq<byte>, buffer: seq<byte>)

  /**
   * A composite glyph: read into the shared buffer when it fits, into a
   * fresh one otherwise (a seek to a negative offset or a read of a
   * negative count throws), then patched.  The result is the glyph's
   * bytes and the shared buffer afterwards.
   */
  function CompositeBody(gs: seq<GlyphData>, font: seq<byte>, g: GlyphData, buffer: seq<byte>): Result<GlyfState>
    requires |buffer| == GLYPH_BUFFER_SIZE
  {
    if g.offset < 0 then Failure(SEEK_ERROR)
    else if g.length < 0 then Failure(Tables.ARGUMENT_OUT_OF_RANGE)
    else
      var arr := if g.length > GLYPH_BUFFER_SIZE then Checksum.Zeros(g.length) else buffer;
      var filled := ReadInto(font, g.offset, g.length, arr);
      var p := Patched(gs, filled[..g.length], 10);
      if p.Failure? then Failure(p.error)
      else Success(GlyfState(p.value, if g.length > GLYPH_BUFFER_SIZE then buffer else p.value + filled[g.length..]))
  }

  /**
   * One pass of BuildGlyphsTT's loop: a needed glyph's bytes (patched when
   * composite, copied otherwise) and its padding appended to the output.
   */
  function GlyphOut(gs: seq<GlyphData>, font: seq<byte>, g: GlyphData, s: GlyfState): Result<GlyfState>
    requires |s.buffer| == GLYPH_BUFFER_SIZE
  {
    if !g.needed then Success(s)
    else if g.compositeTT then
      var c := CompositeBody(gs, font, g, s.buffer);
      if c.Failure? then c
      else Success(GlyfState(s.out + c.value.out + Checksum.Zeros(Sfnt.PadCount(g.length)), c.value.buffer))
    else if g.offset < 0 then Failure(SEEK_ERROR)
    else
      var body := Writer.Copied(font, g.offset, g.length, Checksum.Zeros(Writer.COPY_BUFFER_SIZE));
      Success(GlyfState(s.out + body + Checksum.Zeros(Sfnt.PadCount(g.length)), s.buffer))
  }

  /** The shared buffer stays 256 bytes long. */
  lemma GlyphOutBuffer(gs: seq<GlyphData>, font: seq<byte>, g: GlyphData, s: GlyfState)
    requires |s.buffer| == GLYPH_BUFFER_SIZE && GlyphOut(gs, font, g, s).Success?
    ensures |GlyphOut(gs, font, g, s).value.buffer| == GLYPH_BUFFER_SIZE
  {
  }

  /** The state after the first n glyphs. */
  function GlyfUpTo(gs: seq<GlyphData>, font: seq<byte>, n: nat): (r: Result<GlyfState>)
    requires n <= |gs|
    ensures r.Success? ==> |r.value.buffer| == GLYPH_BUFFER_SIZE
  {
    if n == 0 then Success(GlyfState([], Checksum.Zeros(GLYPH_BUFFER_SIZE)))
    else
      var before := GlyfUpTo(gs, font, n - 1);
      if before.Failure? then before
      else
        var after := GlyphOut(gs, font, gs[n - 1], before.value);
        if after.Failure? then after
        else GlyphOutBuffer(gs, font, gs[n - 1], before.value); after
  }

  /** BuildGlyphsTT as a function: the output after every glyph. */
  function Glyf(gs: seq<GlyphData>, font: seq<byte>): Result<seq<byte>>
  {
    var r := GlyfUpTo(gs, font, |gs|);
    if r.Failure? then Failure(r.error) else Success(r.value.out)
  }

  // ---------------------------------------------------------------- where each glyph lands

  /** The bytes of a needed glyph of the input as they appear in the new 'glyf'. */
  function NewBytes(gs: seq<GlyphData>, font: seq<byte>, g: GlyphData): Result<seq<byte>>
    requires 0 <= g.offset && 0 <= g.length && g.offset + g.length <= |font|
  {
    if g.compositeTT then Patched(gs, font[g.offset..g.offset + g.length], 10)
    else Success(font[g.offset..g.offset + g.length])
  }

  /** A needed glyph within the input adds its new bytes and its padding, whatever the shared buffer held. */
  lemma GlyphOutInBounds(gs: seq<GlyphData>, font: seq<byte>, g: GlyphData, s: GlyfState)
    requires |s.buffer| == GLYPH_BUFFER_SIZE && g.needed
    requires 0 <= g.offset && 0 <= g.length && g.offset + g.length <= |font|
    ensures GlyphOut(gs, font, g, s).Success? == NewBytes(gs, font, g).Success?
    ensures GlyphOut(gs, font, g, s).Success? ==>
      GlyphOut(gs, font, g, s).value.out == s.out + NewBytes(gs, font, g).value + Checksum.Zeros(Sfnt.PadCount(g.length))
  {
    if g.compositeTT {
      var arr := if g.length > GLYPH_BUFFER_SIZE then Checksum.Zeros(g.length) else s.buffer;
      ReadInBounds(font, g.offset, g.length, arr);
    } else {
      Writer.CopiedInBounds(font, g.offset, g.length, Checksum.Zeros(Writer.COPY_BUFFER_SIZE));
    }
  }

  /** Every glyph of gs is within the input, with a length that is not negative. */
  predicate InFont(gs: seq<GlyphData>, font: seq<byte>)
  {
    forall k | 0 <= k < |gs| :: 0 <= gs[k].offset && 0 <= gs[k].length && gs[k].offset + gs[k].length <= |font|
  }

  /** One glyph adds its padded length to the output when it is needed, nothing otherwise. */
  lemma GlyfStep(gs: seq<GlyphData>, font: seq<byte>, n: nat)
    requires 0 < n <= |gs| && InFont(gs, font) && GlyfUpTo(gs, font, n).Success?
    ensures GlyfUpTo(gs, font, n - 1).Success?
    ensures |GlyfUpTo(gs, font, n).value.out| ==
      |GlyfUpTo(gs, font, n - 1).value.out| + (if gs[n - 1].needed then Sfnt.Padded4(gs[n - 1].length) else 0)
  {
    var g := gs[n - 1];
    if g.needed {
      GlyphOutInBounds(gs, font, g, GlyfUpTo(gs, font, n - 1).value);
    }
  }

  /** The output after n glyphs is where the new 'loca' says glyph n starts. */
  lemma {:induction false} GlyfLength(gs: seq<GlyphData>, font: seq<byte>, n: nat)
    requires n <= |gs| && InFont(gs, font) && GlyfUpTo(gs, font, n).Success?
    ensures |GlyfUpTo(gs, font, n).value.out| == Loca.PaddedSum(Loca.KeptLengths(gs[..n]))
  {
    if n > 0 {
      GlyfStep(gs, font, n);
      GlyfLength(gs, font, n - 1);
      Loca.KeptStep(gs, n - 1);
      var ls := Loca.KeptLengths(gs[..n - 1]);
      var before := |GlyfUpTo(gs, font, n - 1).value.out|;
      assert before == Loca.PaddedSum(ls);
      if gs[n - 1].needed {
        var ls' := ls + [gs[n - 1].length];
        Loca.PaddedSumNext(ls', |ls|);
        assert ls'[..|ls|] == ls && ls'[..|ls| + 1] == ls';
        assert Loca.PaddedSum(ls') == Loca.PaddedSum(ls) + Sfnt.Padded4(gs[n - 1].length);
        assert Loca.KeptLengths(gs[..n]) == ls';
      } else {
        assert Loca.KeptLengths(gs[..n]) == ls;
      }
    }
  }

  /** Later glyphs only append to the output. */
  lemma {:induction false} GlyfGrows(gs: seq<GlyphData>, font: seq<byte>, k: nat, n: nat)
    requires k <= n <= |gs| && GlyfUpTo(gs, font, n).Success?
    ensures GlyfUpTo(gs, font, k).Success?
    ensures |GlyfUpTo(gs, font, k).value.out| <= |GlyfUpTo(gs, font, n).value.out|
    ensures GlyfUpTo(gs, font, n).value.out[..|GlyfUpTo(gs, font, k).value.out|] == GlyfUpTo(gs, font, k).value.out
    decreases n - k
  {
    if k < n {
      GlyfGrows(gs, font, k, n - 1);
      var a := GlyfUpTo(gs, font, k).value.out;
      var b := GlyfUpTo(gs, font, n - 1).value.out;
      var c := GlyfUpTo(gs, font, n).value.out;
      assert c[..|b|] == b;
      assert c[..|a|] == c[..|b|][..|a|];
    }
  }

  /**
   * The headline of BuildGlyphsTT: in a font whose glyphs lie within the
   * input, each needed glyph's new bytes (patched when composite) sit in
   * the new 'glyf' at the offset BuildGlyphLocations records for it.
   */
  lemma GlyphWhereLocaSays(gs: seq<GlyphData>, font: seq<byte>, k: nat)
    requires k < |gs| && gs[k].needed && InFont(gs, font) && Glyf(gs, font).Success?
    ensures NewBytes(gs, font, gs[k]).Success?
    ensures var o, t := Loca.PaddedSum(Loca.KeptLengths(gs[..k])), Glyf(gs, font).value;
      0 <= o && o + gs[k].length <= |t| && t[o..o + gs[k].length] == NewBytes(gs, font, gs[k]).value
  {
    GlyfGrows(gs, font, k + 1, |gs|);
    GlyfLength(gs, font, k);
    GlyphLands(gs, font, k);
    var before := GlyfUpTo(gs, font, k).value.out;
    var after := GlyfUpTo(gs, font, k + 1).value.out;
    var t := Glyf(gs, font).value;
    var body := NewBytes(gs, font, gs[k]).value;
    var o := |before|;
    assert t[o..o + |body|] == t[..|after|][o..o + |body|];
    assert after[o..o + |body|] == after[..o + |body|][o..];
  }

  /** Glyph k's new bytes follow the output of the glyphs before it. */
  lemma GlyphLands(gs: seq<GlyphData>, font: seq<byte>, k: nat)
    requires k < |gs| && gs[k].needed && InFont(gs, font) && GlyfUpTo(gs, font, k + 1).Success?
    ensures GlyfUpTo(gs, font, k).Success? && NewBytes(gs, font, gs[k]).Success?
    ensures var before, after := GlyfUpTo(gs, font, k).value.out, GlyfUpTo(gs, font, k + 1).value.out;
      |NewBytes(gs, font, gs[k]).value| == gs[k].length &&
      after[..|before| + gs[k].length] == before + NewBytes(gs, font, gs[k]).value
  {
    var before := GlyfUpTo(gs, font, k).value;
    GlyphOutInBounds(gs, font, gs[k], before);
    var body := NewBytes(gs, font, gs[k]).value;
    var after := GlyfUpTo(gs, font, k + 1).value.out;
    assert after == before.out + body + Checksum.Zeros(Sfnt.PadCount(gs[k].length));
    assert after[..|before.out| + |body|] == before.out + body;
  }

  // ---------------------------------------------------------------- BuildGlyphsTT

  /**
   * The read of a composite glyph: the shared buffer when the glyph fits in
   * it, a new array otherwise; a seek to a negative offset or a read of a
   * negative count throws.
   */
  method ReadComposite(font: seq<byte>, g: GlyphData, buffer: array<byte>) returns (r: Result<array<byte>>)
    requires buffer.Length == GLYPH_BUFFER_SIZE
    modifies buffer
    ensures r.Success? <==> g.offset >= 0 && g.length >= 0
    ensures r.Failure? ==> r.error == (if g.offset < 0 then SEEK_ERROR else Tables.ARGUMENT_OUT_OF_RANGE)
    ensures r.Success? ==> g.length <= r.value.Length && (g.length > GLYPH_BUFFER_SIZE ==> fresh(r.value))
    ensures r.Success? && g.length <= GLYPH_BUFFER_SIZE ==> r.value == buffer
    ensures r.Success? ==> (r.value[..] ==
      ReadInto(font, g.offset, g.length, if g.length > GLYPH_BUFFER_SIZE then Checksum.Zeros(g.length) else old(buffer[..])))
    ensures r.Success? && g.length > GLYPH_BUFFER_SIZE ==> buffer[..] == old(buffer[..])
    ensures r.Failure? ==> buffer[..] == old(buffer[..])
  {
    var arr := buffer;
    if g.length > buffer.Length {
      arr := new byte[g.length](_ => 0);
      assert arr[..] == Checksum.Zeros(g.length);
    }
    if g.offset < 0 {
      return Failure(SEEK_ERROR);
    }
    if g.length < 0 {
      return Failure(Tables.ARGUMENT_OUT_OF_RANGE);
    }
    ghost var before := arr[..];
    var n := Writer.Available(font, g.offset, g.length);
    forall k | 0 <= k < n {
      arr[k] := font[g.offset + k];
    }
    assert arr[..] == (if n > 0 then font[g.offset..g.offset + n] else []) + before[n..];
    return Success(arr);
  }

  /** A composite glyph read, patched and written out. */
  method WriteComposite(gs: seq<GlyphData>, font: seq<byte>, g: GlyphData, out: ByteStream, buffer: array<byte>)
    returns (r: Result<()>)
    requires buffer.Length == GLYPH_BUFFER_SIZE
    modifies out, buffer
    ensures var c := CompositeBody(gs, font, g, old(buffer[..]));
      r.Success? == c.Success? && (r.Failure? ==> r.error == c.error) &&
      (r.Success? ==> out.bytes == old(out.bytes) + c.value.out && buffer[..] == c.value.buffer)
  {
    var read := ReadComposite(font, g, buffer);
    if read.Failure? {
      return Failure(read.error);
    }
    var arr := read.value;
    ghost var filled := arr[..];
    var patched := PatchComponents(gs, arr, g.length);
    if patched.Failure? {
      return Failure(patched.error);
    }
    assert arr[..] == arr[..g.length] + arr[g.length..];
    out.Write(arr[..g.length]);
    return Success(());
  }

  /** The zero bytes that pad a glyph of the given length to four bytes. */
  method WritePadding(out: ByteStream, length: int)
    modifies out
    ensures out.bytes == old(out.bytes) + Checksum.Zeros(Sfnt.PadCount(length))
  {
    var padCount := Sfnt.PadCount(length);
    while padCount > 0
      invariant 0 <= padCount <= Sfnt.PadCount(length)
      invariant out.bytes == old(out.bytes) + Checksum.Zeros(Sfnt.PadCount(length) - padCount)
    {
      padCount := padCount - 1;
      out.WriteByte(0);
    }
  }

  /** One needed glyph: its bytes, patched or copied, then its padding. */
  method WriteGlyph(gs: seq<GlyphData>, font: seq<byte>, g: GlyphData, out: ByteStream, buffer: array<byte>)
    returns (r: Result<()>)
    requires g.needed && buffer.Length == GLYPH_BUFFER_SIZE
    modifies out, buffer
    ensures var s := GlyphOut(gs, font, g, GlyfState(old(out.bytes), old(buffer[..])));
      r.Success? == s.Success? && (r.Failure? ==> r.error == s.error) &&
      (r.Success? ==> s.value == GlyfState(out.bytes, buffer[..]))
  {
    if g.compositeTT {
      var written := WriteComposite(gs, font, g, out, buffer);
      if written.Failure? {
        return written;
      }
    } else {
      var copied := Writer.CopyBytes(out, font, g.offset, g.length);
      if !copied {
        return Failure(SEEK_ERROR);
      }
    }
    WritePadding(out, g.length);
    return Success(());
  }

  /**
   * OpenTypeFont.BuildGlyphsTT: every needed glyph written in glyph order,
   * each padded to four bytes.
   */
  method BuildGlyphsTT(gs: seq<GlyphData>, font: seq<byte>) returns (r: Result<seq<byte>>)
    ensures r == Glyf(gs, font)
  {
    var out := new ByteStream();
    var buffer := new byte[GLYPH_BUFFER_SIZE](_ => 0);
    assert buffer[..] == Checksum.Zeros(GLYPH_BUFFER_SIZE);
    var i := 0;
    while i < |gs|
      invariant 0 <= i <= |gs|
      invariant GlyfUpTo(gs, font, i) == Success(GlyfState(out.bytes, buffer[..]))
    {
      if gs[i].needed {
        var written := WriteGlyph(gs, font, gs[i], out, buffer);
        if written.Failure? {
          FailureStays(gs, font, i + 1);
          return Failure(written.error);
        }
      }
      i := i + 1;
    }
    return Success(out.bytes);
  }

  /** Once the output fails at some glyph, BuildGlyphsTT fails with that error. */
  lemma {:induction false} FailureStays(gs: seq<GlyphData>, font: seq<byte>, n: nat)
    requires n <= |gs| && GlyfUpTo(gs, font, n).Failure?
    ensures Glyf(gs, font) == Failure(GlyfUpTo(gs, font, n).error)
    decreases |gs| - n
  {
    if n < |gs| {
      FailureStays(gs, font, n + 1);
    }
  }
}
