/**
 * CFF charsets in format 2 (section 13 "Charsets" of Adobe Technical Note
 * #5176): after the format byte come Range2 records, each a first SID and
 * a 16-bit nLeft, naming nLeft + 1 consecutive SIDs for the next glyphs.
 * ReadCharsetFormat2CFF hands the SIDs out to the glyphs in order;
 * WriteCharsetCff writes the renumbered SIDs of the needed glyphs as such
 * records, starting a new record whenever a SID is not one more than the
 * previous one.
 */
module CffCharset {
  import opened BigEndian
  import opened Outcome
  import opened Records
  import opened CMapDecode
  import opened CffDict
  import opened CffIndex

  /** The number of standard strings (Appendix A): SIDs from 391 on name the font's own strings. */
  const CFF_STD_STRING_COUNT: int := 391
  /** What indexing past the end of an array throws. */
  const ARRAY_INDEX_ERROR: string := "Index was outside the bounds of the array."
  /** What indexing past the end of a List throws. */
  const LIST_INDEX_ERROR: string := "Index was out of range. Must be non-negative and less than the size of the collection."

  /** n consecutive SIDs from first on. */
  function Consecutive(first: int, n: nat): (r: seq<int>)
    ensures |r| == n && forall k | 0 <= k < n :: r[k] == first + k
  {
    seq(n, k => first + k)
  }

  // ---------------------------------------------------------------- reading

  /** A negative nLeft has its high byte inside the data: past the end the reader sees zero bytes. */
  lemma NegativeInside(data: seq<byte>, q: int)
    requires ShortAt(data, q) < 0
    ensures 0 <= q < |data|
  {
  }

  /**
   * ReadCharsetFormat2CFF from the record at pos on, with `sids` handed
   * out so far to the first of n glyphs: the record's first SID and nLeft
   * (both read with GetShort), then up to nLeft + 1 consecutive SIDs, as
   * many as there are glyphs left; a negative nLeft hands out none.
   */
  function ExpandFrom(data: seq<byte>, pos: nat, n: nat, sids: seq<int>): (r: seq<int>)
    requires |sids| <= n
    ensures |r| == n && r[..|sids|] == sids
    decreases n - |sids|, |data| - pos
  {
    if |sids| == n then sids
    else
      var first := ShortAt(data, pos);
      var nLeft := ShortAt(data, pos + 2);
      var take := if nLeft < 0 then 0 else if nLeft + 1 < n - |sids| then nLeft + 1 else n - |sids|;
      if take == 0 then
        NegativeInside(data, pos + 2);
        ExpandFrom(data, pos + 4, n, sids)
      else
        var r := ExpandFrom(data, pos + 4, n, sids + Consecutive(first, take));
        assert r[..|sids|] == r[..|sids| + take][..|sids|];
        r
  }

  /** ReadCharsetFormat2CFF: the SIDs of all n glyphs from the records at pos. */
  function ReadCharset(data: seq<byte>, pos: nat, n: nat): (r: seq<int>)
    ensures |r| == n
  {
    ExpandFrom(data, pos, n, [])
  }

  /**
   * ReadCharsetFormat2CFF: the outer loop reads a record, the inner loop
   * gives the glyphs their SIDs; only the glyphs' NamesIdCFF change.
   */
  method ReadCharsetFormat2Cff(glyphs: array<GlyphData>, data: seq<byte>, pos: nat)
    modifies glyphs
    ensures var sids := ReadCharset(data, pos, glyphs.Length);
      forall i | 0 <= i < glyphs.Length :: glyphs[i] == old(glyphs[i]).(namesIdCFF := sids[i])
  {
    ghost var want := ReadCharset(data, pos, glyphs.Length);
    ghost var done: seq<int> := [];
    var glyphIndex := 0;
    var p := pos;
    while glyphIndex < glyphs.Length
      invariant 0 <= glyphIndex <= glyphs.Length && |done| == glyphIndex
      invariant ExpandFrom(data, p, glyphs.Length, done) == want
      invariant forall k | 0 <= k < glyphIndex :: glyphs[k] == old(glyphs[k]).(namesIdCFF := done[k])
      invariant forall k | glyphIndex <= k < glyphs.Length :: glyphs[k] == old(glyphs[k])
      decreases glyphs.Length - glyphIndex, |data| - p
    {
      var sid := ShortAt(data, p);
      var len := ShortAt(data, p + 2);
      ghost var take := if len < 0 then 0 else if len + 1 < glyphs.Length - glyphIndex then len + 1 else glyphs.Length - glyphIndex;
      if take == 0 {
        NegativeInside(data, p + 2);
      }
      var next := ReadRangeCff(glyphs, glyphIndex, sid, len);
      ExpandStep(data, p, glyphs.Length, done);
      done := done + Consecutive(sid, take);
      glyphIndex := next;
      p := p + 4;
    }
  }

  /** One record of ExpandFrom: its SIDs go after those handed out so far. */
  lemma ExpandStep(data: seq<byte>, pos: nat, n: nat, sids: seq<int>)
    requires |sids| < n
    ensures var nLeft := ShortAt(data, pos + 2);
      var take := if nLeft < 0 then 0 else if nLeft + 1 < n - |sids| then nLeft + 1 else n - |sids|;
      ExpandFrom(data, pos, n, sids) == ExpandFrom(data, pos + 4, n, sids + Consecutive(ShortAt(data, pos), take))
  {
    var nLeft := ShortAt(data, pos + 2);
    if nLeft < 0 {
      assert sids + Consecutive(ShortAt(data, pos), 0) == sids;
    }
  }

  /** The inner loop: glyphs from `start` on get sid, sid + 1, … for i = 0..len, while glyphs are left. */
  method ReadRangeCff(glyphs: array<GlyphData>, start: nat, sid: int, len: int) returns (next: nat)
    requires start < glyphs.Length
    modifies glyphs
    ensures next == start + (if len < 0 then 0 else if len + 1 < glyphs.Length - start then len + 1 else glyphs.Length - start)
    ensures forall k | 0 <= k < start :: glyphs[k] == old(glyphs[k])
    ensures forall k | start <= k < next :: glyphs[k] == old(glyphs[k]).(namesIdCFF := sid + (k - start))
    ensures forall k | next <= k < glyphs.Length :: glyphs[k] == old(glyphs[k])
  {
    next := start;
    var i := 0;
    var s := sid;
    while i <= len && next < glyphs.Length
      invariant start <= next <= glyphs.Length && i == next - start && s == sid + i
      invariant forall k | 0 <= k < start :: glyphs[k] == old(glyphs[k])
      invariant forall k | start <= k < next :: glyphs[k] == old(glyphs[k]).(namesIdCFF := sid + (k - start))
      invariant forall k | next <= k < glyphs.Length :: glyphs[k] == old(glyphs[k])
      invariant i <= if len < 0 then 0 else len + 1
    {
      glyphs[next] := glyphs[next].(namesIdCFF := s);
      next := next + 1;
      s := s + 1;
      i := i + 1;
    }
  }

  // ---------------------------------------------------------------- writing

  /** The SID WriteCharsetCff writes for a glyph: a font string's NewIndex, a standard SID unchanged. */
  function RemapSid(sid: int, newIndex: seq<int>): Result<int>
  {
    if sid >= CFF_STD_STRING_COUNT then
      if sid - CFF_STD_STRING_COUNT < |newIndex| then Success(newIndex[sid - CFF_STD_STRING_COUNT]) else Failure(ARRAY_INDEX_ERROR)
    else Success(sid)
  }

  /** The renumbered SIDs of the needed glyphs, in glyph order, or the error renumbering the first bad one throws. */
  function NeededSids(glyphs: seq<GlyphData>, newIndex: seq<int>): Result<seq<int>>
  {
    if glyphs == [] then Success([])
    else
      match NeededSids(glyphs[..|glyphs| - 1], newIndex)
      case Failure(e) => Failure(e)
      case Success(ss) =>
        var g := glyphs[|glyphs| - 1];
        if !g.needed then Success(ss)
        else
          match RemapSid(g.namesIdCFF, newIndex)
          case Failure(e) => Failure(e)
          case Success(sid) => Success(ss + [sid])
  }

  /** WriteCharsetCff's variables between glyphs: prevsid, count, and the bytes written after the format byte. */
  datatype WriterState = WriterState(prevsid: int, count: int, bytes: seq<byte>)

  /**
   * One needed glyph of WriteCharsetCff: the first one opens a record;
   * one that does not follow the previous SID closes the record with its
   * count and opens another; one that follows it counts.
   */
  function WriteSid(st: WriterState, sid: int): WriterState
  {
    if st.prevsid == -1 then WriterState(sid, 0, st.bytes + ShortBytes(sid))
    else if st.prevsid != sid - 1 then WriterState(sid, 0, st.bytes + ShortBytes(st.count) + ShortBytes(sid))
    else WriterState(sid, st.count + 1, st.bytes)
  }

  /** WriteCharsetCff's loop over the needed glyphs' SIDs, from state st. */
  function WriteSids(st: WriterState, sids: seq<int>): WriterState
  {
    if sids == [] then st else WriteSid(WriteSids(st, sids[..|sids| - 1]), sids[|sids| - 1])
  }

  /** Nothing written yet. */
  const START := WriterState(-1, 0, [])

  /** The charset WriteCharsetCff writes for the SIDs: format 2, the records, and the last record's count. */
  function CharsetBytes(sids: seq<int>): seq<byte>
  {
    var st := WriteSids(START, sids);
    [2] + st.bytes + ShortBytes(st.count)
  }

  /** WriteCharsetCff on the glyph list: it throws on an empty list (glyphs[0]) or a SID past the string list. */
  function CharsetOut(glyphs: seq<GlyphData>, newIndex: seq<int>): Result<seq<byte>>
  {
    if glyphs == [] then Failure(LIST_INDEX_ERROR)
    else
      match NeededSids(glyphs, newIndex)
      case Failure(e) => Failure(e)
      case Success(ss) => Success(CharsetBytes(ss))
  }

  /** WriteCharsetCff: the format byte, then the loop over every glyph until the last, which writes the final count. */
  method WriteCharsetCff(out: ByteStream, glyphs: seq<GlyphData>, newIndex: seq<int>) returns (r: Result<()>)
    modifies out
    ensures var x := CharsetOut(glyphs, newIndex);
      r.Success? == x.Success? && (r.Success? ==> out.bytes == old(out.bytes) + x.value) && (r.Failure? ==> r.error == x.error)
  {
    var i := 0;
    var count := 0;
    var prevsid := -1;
    out.WriteByte(2);
    ghost var ss: seq<int> := [];
    if |glyphs| == 0 {
      return Failure(LIST_INDEX_ERROR);
    }
    while true
      invariant 0 <= i < |glyphs|
      invariant NeededSids(glyphs[..i], newIndex) == Success(ss)
      invariant |old(out.bytes)| + 1 <= |out.bytes| && out.bytes[..|old(out.bytes)| + 1] == old(out.bytes) + [2]
      invariant WriteSids(START, ss) == WriterState(prevsid, count, out.bytes[|old(out.bytes)| + 1..])
      decreases |glyphs| - i
    {
      var glyph := glyphs[i];
      assert glyphs[..i + 1][..i] == glyphs[..i] && glyphs[..i + 1][i] == glyph;
      i := i + 1;
      if glyph.needed {
        var sid := glyph.namesIdCFF;
        if sid >= CFF_STD_STRING_COUNT {
          if sid - CFF_STD_STRING_COUNT >= |newIndex| {
            NeededSidsFail(glyphs, newIndex, i);
            return Failure(ARRAY_INDEX_ERROR);
          }
          sid := newIndex[sid - CFF_STD_STRING_COUNT];
        }
        WriteSidCff(out, prevsid, count, sid, |old(out.bytes)| + 1);
        if prevsid == -1 || prevsid != sid - 1 {
          count := 0;
        } else {
          count := count + 1;
        }
        prevsid := sid;
        assert (ss + [sid])[..|ss|] == ss;
        ss := ss + [sid];
      }
      if i >= |glyphs| {
        assert glyphs[..i] == glyphs;
        CharsetDone(old(out.bytes), out.bytes, ss, prevsid, count);
        out.WriteShort(count);
        return Success(());
      }
    }
  }

  /** The record bytes for one needed glyph's SID. */
  method WriteSidCff(out: ByteStream, prevsid: int, count: int, sid: int, ghost base: nat)
    requires base <= |out.bytes|
    modifies out
    ensures |out.bytes| >= base && out.bytes[..base] == old(out.bytes)[..base]
    ensures WriteSid(WriterState(prevsid, count, old(out.bytes)[base..]), sid).bytes == out.bytes[base..]
  {
    if prevsid == -1 {
      out.WriteShort(sid);
    } else if prevsid != sid - 1 {
      out.WriteShort(count);
      out.WriteShort(sid);
    }
  }

  /** The bytes after the format byte, and the final count, make up CharsetBytes. */
  lemma CharsetDone(o: seq<byte>, b: seq<byte>, ss: seq<int>, prevsid: int, count: int)
    requires |o| + 1 <= |b| && b[..|o| + 1] == o + [2]
    requires WriteSids(START, ss) == WriterState(prevsid, count, b[|o| + 1..])
    ensures b + ShortBytes(count) == o + CharsetBytes(ss)
  {
    assert b == o + [2] + b[|o| + 1..];
  }

  /** Once the SIDs of a prefix of the glyphs fail, so do those of all of them, with the same error. */
  lemma {:induction false} PrefixFails(glyphs: seq<GlyphData>, newIndex: seq<int>, k: nat)
    requires k <= |glyphs| && NeededSids(glyphs[..k], newIndex).Failure?
    ensures NeededSids(glyphs, newIndex) == NeededSids(glyphs[..k], newIndex)
    decreases |glyphs| - k
  {
    if k < |glyphs| {
      assert glyphs[..k + 1][..k] == glyphs[..k];
      PrefixFails(glyphs, newIndex, k + 1);
    } else {
      assert glyphs[..k] == glyphs;
    }
  }

  /** A needed glyph whose SID is past the string list makes WriteCharsetCff throw. */
  lemma NeededSidsFail(glyphs: seq<GlyphData>, newIndex: seq<int>, i: nat)
    requires 0 < i <= |glyphs| && NeededSids(glyphs[..i - 1], newIndex).Success? && glyphs[i - 1].needed
    requires RemapSid(glyphs[i - 1].namesIdCFF, newIndex) == Failure(ARRAY_INDEX_ERROR)
    ensures CharsetOut(glyphs, newIndex) == Failure(ARRAY_INDEX_ERROR)
  {
    assert glyphs[..i][..i - 1] == glyphs[..i - 1];
    PrefixFails(glyphs, newIndex, i);
  }

  // ---------------------------------------------------------------- round trip

  lemma ConsecutiveSnoc(first: int, n: nat)
    ensures Consecutive(first, n + 1) == Consecutive(first, n) + [first + n]
  {
  }

  /** A Range2 record: a first SID and how many more follow it. */
  datatype Range2 = Range2(first: int, nLeft: nat)

  /** The SIDs a record names. */
  function RangeSids(r: Range2): (sids: seq<int>)
    ensures |sids| == r.nLeft + 1 && sids[0] == r.first
  {
    Consecutive(r.first, r.nLeft + 1)
  }

  /** The SIDs records name, one after another. */
  function Flatten(rs: seq<Range2>): seq<int>
  {
    if rs == [] then [] else RangeSids(rs[0]) + Flatten(rs[1..])
  }

  /** The bytes of the records: first, then nLeft, each a 16-bit big-endian number. */
  function RangesBytes(rs: seq<Range2>): (r: seq<byte>)
    ensures |r| == 4 * |rs|
  {
    if rs == [] then [] else ShortBytes(rs[0].first) + ShortBytes(rs[0].nLeft) + RangesBytes(rs[1..])
  }

  lemma {:induction false} FlattenSnoc(rs: seq<Range2>, r: Range2)
    ensures Flatten(rs + [r]) == Flatten(rs) + RangeSids(r)
  {
    if rs != [] {
      assert (rs + [r])[1..] == rs[1..] + [r];
      FlattenSnoc(rs[1..], r);
    } else {
      assert [r][1..] == [];
    }
  }

  lemma {:induction false} RangesBytesSnoc(rs: seq<Range2>, r: Range2)
    ensures RangesBytes(rs + [r]) == RangesBytes(rs) + ShortBytes(r.first) + ShortBytes(r.nLeft)
  {
    if rs != [] {
      assert (rs + [r])[1..] == rs[1..] + [r];
      RangesBytesSnoc(rs[1..], r);
    } else {
      assert [r][1..] == [];
    }
  }

  /** The last SID a record names. */
  function Last(r: Range2): int
  {
    r.first + r.nLeft
  }

  /** One more SID for the records: one more than the last one extends the last record, any other opens a new one. */
  function Extend(rs: seq<Range2>, x: int): (r: seq<Range2>)
    ensures |r| > 0 && Last(r[|r| - 1]) == x
  {
    if rs == [] then [Range2(x, 0)]
    else
      var l := rs[|rs| - 1];
      if Last(l) + 1 == x then rs[..|rs| - 1] + [Range2(l.first, l.nLeft + 1)]
      else rs + [Range2(x, 0)]
  }

  /** The records WriteCharsetCff makes of the SIDs. */
  function Runs(sids: seq<int>): (rs: seq<Range2>)
    ensures (sids == []) == (rs == [])
  {
    if sids == [] then [] else Extend(Runs(sids[..|sids| - 1]), sids[|sids| - 1])
  }

  /** Extending the records adds the SID to the ones they name. */
  lemma FlattenExtend(rs: seq<Range2>, x: int)
    ensures Flatten(Extend(rs, x)) == Flatten(rs) + [x]
  {
    if rs == [] {
      FlattenSnoc([], Range2(x, 0));
    } else {
      var l := rs[|rs| - 1];
      if Last(l) + 1 == x {
        var front := rs[..|rs| - 1];
        assert rs == front + [l];
        FlattenSnoc(front, l);
        FlattenSnoc(front, Range2(l.first, l.nLeft + 1));
        ConsecutiveSnoc(l.first, l.nLeft + 1);
      } else {
        FlattenSnoc(rs, Range2(x, 0));
      }
    }
  }

  /** The records name exactly the SIDs they were made of, in order. */
  lemma {:induction false} FlattenRuns(sids: seq<int>)
    ensures Flatten(Runs(sids)) == sids
  {
    if sids != [] {
      var init := sids[..|sids| - 1];
      FlattenRuns(init);
      assert sids == init + [sids[|sids| - 1]];
      FlattenExtend(Runs(init), sids[|sids| - 1]);
    }
  }

  /** No record starts right after the one before ends. */
  predicate Maximal(rs: seq<Range2>)
  {
    forall i | 0 < i < |rs| :: rs[i].first != Last(rs[i - 1]) + 1
  }

  /** Extending keeps consecutive records apart. */
  lemma ExtendMaximal(rs: seq<Range2>, x: int)
    requires Maximal(rs)
    ensures Maximal(Extend(rs, x))
  {
    var r := Extend(rs, x);
    forall i | 0 < i < |r|
      ensures r[i].first != Last(r[i - 1]) + 1
    {
      if i < |rs| {
        assert r[i - 1] == rs[i - 1];
        assert r[i].first == rs[i].first;
      }
    }
  }

  /** A new record starts exactly where a SID does not follow the one before: the records are as few as can be. */
  lemma {:induction false} RunsMaximal(sids: seq<int>)
    ensures Maximal(Runs(sids))
  {
    if sids != [] {
      RunsMaximal(sids[..|sids| - 1]);
      ExtendMaximal(Runs(sids[..|sids| - 1]), sids[|sids| - 1]);
    }
  }

  /** Every record's SIDs lie within 0..0x7FFF. */
  predicate Bounded(rs: seq<Range2>)
  {
    forall i | 0 <= i < |rs| :: 0 <= rs[i].first && Last(rs[i]) < 0x8000
  }

  /** Extending with a SID within 0..0x7FFF keeps the records' numbers there. */
  lemma ExtendBounded(rs: seq<Range2>, x: int)
    requires 0 <= x < 0x8000 && Bounded(rs)
    ensures Bounded(Extend(rs, x))
  {
    var r := Extend(rs, x);
    forall i | 0 <= i < |r|
      ensures 0 <= r[i].first && Last(r[i]) < 0x8000
    {
      if i < |rs| {
        assert r[i].first == rs[i].first;
      }
    }
  }

  /** SIDs within 0..0x7FFF make records whose numbers are, too. */
  lemma {:induction false} RunsBounded(sids: seq<int>)
    requires forall k | 0 <= k < |sids| :: 0 <= sids[k] < 0x8000
    ensures Bounded(Runs(sids))
  {
    if sids != [] {
      var init := sids[..|sids| - 1];
      assert forall k | 0 <= k < |init| :: init[k] == sids[k];
      RunsBounded(init);
      ExtendBounded(Runs(init), sids[|sids| - 1]);
    }
  }

  /** What WriteCharsetCff has written and holds after the SIDs: all records but the last, its first SID; prevsid and count describe it. */
  lemma {:induction false} WriterRuns(sids: seq<int>)
    requires sids != [] && forall k | 0 <= k < |sids| :: 0 <= sids[k]
    ensures var rs := Runs(sids); var l := rs[|rs| - 1];
      WriteSids(START, sids) == WriterState(l.first + l.nLeft, l.nLeft, RangesBytes(rs[..|rs| - 1]) + ShortBytes(l.first))
  {
    var init := sids[..|sids| - 1];
    var x := sids[|sids| - 1];
    if init == [] {
      assert WriteSids(START, init) == START;
    } else {
      WriterRuns(init);
      FlattenRuns(init);
      var rs := Runs(init);
      var l := rs[|rs| - 1];
      var front := rs[..|rs| - 1];
      assert rs == front + [l];
      if l.first + l.nLeft + 1 != x {
        RangesBytesSnoc(front, l);
        assert (rs + [Range2(x, 0)])[..|rs|] == rs;
      } else {
        assert (front + [Range2(l.first, l.nLeft + 1)])[..|front|] == front;
      }
    }
  }

  lemma LastSplit(rs: seq<Range2>)
    requires rs != []
    ensures rs == rs[..|rs| - 1] + [rs[|rs| - 1]]
  {
  }

  /** The last record's count closes the records. */
  lemma CloseRecords(rs: seq<Range2>, st: WriterState)
    requires rs != [] && st.count == rs[|rs| - 1].nLeft
    requires st.bytes == RangesBytes(rs[..|rs| - 1]) + ShortBytes(rs[|rs| - 1].first)
    ensures st.bytes + ShortBytes(st.count) == RangesBytes(rs)
  {
    var l := rs[|rs| - 1];
    LastSplit(rs);
    RangesBytesSnoc(rs[..|rs| - 1], l);
  }

  /** The charset WriteCharsetCff writes for a nonempty list of SIDs is the format byte and the records. */
  lemma CharsetRecords(sids: seq<int>)
    requires sids != [] && forall k | 0 <= k < |sids| :: 0 <= sids[k]
    ensures CharsetBytes(sids) == [2] + RangesBytes(Runs(sids))
  {
    WriterRuns(sids);
    var st := WriteSids(START, sids);
    CloseRecords(Runs(sids), st);
    AppendAssoc([2], st.bytes, ShortBytes(st.count));
  }

  /** A 16-bit number within 0..0x7FFF reads back as itself. */
  lemma ShortBack(data: seq<byte>, q: nat, v: int)
    requires 0 <= v < 0x8000 && At(data, q, ShortBytes(v))
    ensures ShortAt(data, q) == v
  {
    ShortOffset(data, q, v);
  }

  /** Records placed at pos hand out exactly their SIDs, after those handed out so far. */
  lemma {:induction false} ExpandRanges(data: seq<byte>, pos: nat, rs: seq<Range2>, acc: seq<int>, n: nat)
    requires n == |acc| + |Flatten(rs)| && At(data, pos, RangesBytes(rs))
    requires Bounded(rs)
    ensures ExpandFrom(data, pos, n, acc) == acc + Flatten(rs)
    decreases |rs|
  {
    if rs != [] {
      assert RangesBytes(rs) == ShortBytes(rs[0].first) + ShortBytes(rs[0].nLeft) + RangesBytes(rs[1..]);
      assert Flatten(rs) == RangeSids(rs[0]) + Flatten(rs[1..]);
      assert 0 <= rs[0].first && Last(rs[0]) < 0x8000;
      ExpandOne(data, pos, rs[0], RangesBytes(rs[1..]), n, acc);
      AppendAssoc(acc, RangeSids(rs[0]), Flatten(rs[1..]));
      assert Bounded(rs[1..]) by {
        forall i | 0 <= i < |rs| - 1 ensures 0 <= rs[1..][i].first && Last(rs[1..][i]) < 0x8000 {
          assert rs[1..][i] == rs[i + 1];
        }
      }
      ExpandRanges(data, pos + 4, rs[1..], acc + RangeSids(rs[0]), n);
    }
  }

  /** One record placed at pos hands out its SIDs when at least that many glyphs are left, and the next record follows it. */
  lemma ExpandOne(data: seq<byte>, pos: nat, r: Range2, rest: seq<byte>, n: nat, acc: seq<int>)
    requires At(data, pos, ShortBytes(r.first) + ShortBytes(r.nLeft) + rest)
    requires 0 <= r.first && Last(r) < 0x8000 && |acc| + r.nLeft + 1 <= n
    ensures ExpandFrom(data, pos, n, acc) == ExpandFrom(data, pos + 4, n, acc + RangeSids(r))
    ensures At(data, pos + 4, rest)
  {
    AtSplit(data, pos, ShortBytes(r.first) + ShortBytes(r.nLeft), rest);
    AtSplit(data, pos, ShortBytes(r.first), ShortBytes(r.nLeft));
    ShortBack(data, pos, r.first);
    ShortBack(data, pos + 2, r.nLeft);
    ExpandStep(data, pos, n, acc);
  }

  /**
   * The charset WriteCharsetCff writes, read by ReadCharsetFormat2CFF for
   * as many glyphs as there were needed ones, gives them back their SIDs
   * in order, whenever those fit in 0..0x7FFF.
   */
  lemma CharsetRoundTrip(sids: seq<int>, prefix: seq<byte>, rest: seq<byte>)
    requires forall k | 0 <= k < |sids| :: 0 <= sids[k] < 0x8000
    ensures var data := prefix + CharsetBytes(sids) + rest;
      data[|prefix|] == 2 && ReadCharset(data, |prefix| + 1, |sids|) == sids
  {
    var data := prefix + CharsetBytes(sids) + rest;
    Placed(prefix, CharsetBytes(sids), rest);
    if sids != [] {
      CharsetRecords(sids);
      var rs := Runs(sids);
      AtSplit(data, |prefix|, [2], RangesBytes(rs));
      RunsBounded(sids);
      FlattenRuns(sids);
      ExpandRanges(data, |prefix| + 1, rs, [], |sids|);
    }
  }
}
