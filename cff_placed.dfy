/**
 * Where the IntPlaceholderCFF objects of a DICT end up once WriteIndexCFF
 * has written it: every placeholder occurring once in the INDEX sits at
 * its own slot of the output stream (the position WriteObjectCFF recorded
 * in the data stream, moved by AdjustOffsetDictCFF by what precedes the
 * data), after everything the stream held before, and no two placeholders
 * share a slot.
 */
module CffPlaced {
  import opened BigEndian
  import opened CffToken
  import opened CffDict
  import opened CffIndex

  /**
   * From state s to state t, every placeholder of o was recorded past the
   * bytes s held, and no two of them at the same position.
   */
  ghost predicate Apart(o: CffObject, s: Out, t: Out)
  {
    && (forall tag | TagCount(o, tag) > 0 :: tag in t.offsets && |s.bytes| < t.offsets[tag])
    && (forall a, b | TagCount(o, a) > 0 && TagCount(o, b) > 0 && a != b ::
          a in t.offsets && b in t.offsets && t.offsets[a] != t.offsets[b])
  }

  /** Writing a and then b keeps apart what writing an object with both their placeholders keeps apart. */
  lemma ApartThen(a: CffObject, b: CffObject, c: CffObject, s: Out, t: Out, u: Out)
    requires forall tag :: TagCount(c, tag) == TagCount(a, tag) + TagCount(b, tag)
    requires Recorded(a, s, t) && Recorded(b, t, u) && Extends(s, t)
    requires Apart(a, s, t) && Apart(b, t, u)
    ensures Apart(c, s, u)
  {
    forall x | TagCount(c, x) > 0
      ensures x in u.offsets && |s.bytes| < u.offsets[x]
      ensures TagCount(b, x) == 0 ==> u.offsets[x] == t.offsets[x] && u.offsets[x] + 4 <= |t.bytes|
      ensures TagCount(b, x) > 0 ==> |t.bytes| < u.offsets[x]
    {
      if TagCount(b, x) == 0 {
        assert TagCount(a, x) > 0;
        assert x in t.offsets && Slot(t.bytes, t.offsets[x]);
      }
    }
  }

  /** Writing bytes that are no placeholder keeps apart an object without placeholders. */
  lemma ApartNone(o: CffObject, s: Out, more: seq<byte>)
    requires forall tag :: TagCount(o, tag) == 0
    ensures Apart(o, s, Out(s.bytes + more, s.offsets))
  {
  }

  /** What is recorded past a longer stream is recorded past a shorter one. */
  lemma ApartEarlier(o: CffObject, s: Out, s1: Out, t: Out)
    requires Apart(o, s1, t) && |s.bytes| <= |s1.bytes|
    ensures Apart(o, s, t)
  {
  }

  /** Writing an object keeps its placeholders apart. */
  lemma {:induction false} ObjectApart(o: CffObject, sids: seq<int>, s: Out)
    requires RefsIn(o, |sids|)
    ensures EmitObject(o, sids, s).Success? ==> Apart(o, s, EmitObject(o, sids, s).value)
    decreases o
  {
    match o
    case Plain(t) =>
      if TokenBytes(t).Success? {
        ApartNone(o, s, TokenBytes(t).value);
      }
    case StringRef(i) =>
      ApartNone(o, s, IntCff(sids[i]));
    case Placeholder(tag) =>
    case Objects(items) =>
      ItemsApart(items, sids, s);
  }

  /** Writing an array's elements keeps the array's placeholders apart. */
  lemma {:induction false} ItemsApart(items: seq<CffObject>, sids: seq<int>, s: Out)
    requires forall i | 0 <= i < |items| :: RefsIn(items[i], |sids|)
    ensures EmitItems(items, sids, s).Success? ==> Apart(Objects(items), s, EmitItems(items, sids, s).value)
    decreases items
  {
    if items == [] {
      ApartNone(Objects(items), s, []);
      assert Out(s.bytes + [], s.offsets) == s;
    } else if EmitObject(items[0], sids, s).Success? {
      var s1 := EmitObject(items[0], sids, s).value;
      var r := EmitItems(items[1..], sids, s1);
      assert EmitItems(items, sids, s) == r;
      if r.Success? {
        ObjectRecorded(items[0], sids, s);
        ItemsRecorded(items[1..], sids, s1);
        ObjectApart(items[0], sids, s);
        ItemsApart(items[1..], sids, s1);
        ItemsSplit(items);
        ApartThen(items[0], Objects(items[1..]), Objects(items), s, s1, r.value);
      }
    }
  }

  /** Writing a dictionary keeps the placeholders of its values apart. */
  lemma {:induction false} DictApart(d: seq<(int, CffObject)>, sids: seq<int>, s: Out)
    requires DictRefsIn(d, |sids|)
    ensures EmitDict(d, sids, s).Success? ==> Apart(Values(d), s, EmitDict(d, sids, s).value)
    decreases |d|
  {
    if d == [] {
      ApartNone(Values(d), s, []);
      assert Out(s.bytes + [], s.offsets) == s;
    } else if EmitObject(d[0].1, sids, s).Success? {
      var s1 := EmitObject(d[0].1, sids, s).value;
      var s2 := Out(s1.bytes + KeyBytes(d[0].0), s1.offsets);
      var r := EmitDict(d[1..], sids, s2);
      assert EmitDict(d, sids, s) == r;
      if r.Success? {
        var u := r.value;
        ObjectRecorded(d[0].1, sids, s);
        ObjectApart(d[0].1, sids, s);
        DictRecorded(d[1..], sids, s2);
        DictApart(d[1..], sids, s2);
        assert Recorded(Values(d[1..]), s1, u) by {
          RecordedNone(Plain(Operator(d[0].0)), s1, KeyBytes(d[0].0));
          RecordedThen(Plain(Operator(d[0].0)), Values(d[1..]), Values(d[1..]), s1, s2, u);
        }
        ApartEarlier(Values(d[1..]), s1, s2, u);
        ValuesSplit(d);
        ApartThen(d[0].1, Values(d[1..]), Values(d), s, s1, u);
      }
    }
  }

  /** Writing one INDEX item keeps its placeholders apart. */
  lemma EntryApart(e: IndexEntry, sids: seq<int>, font: seq<byte>, s: Out)
    requires e.DictEntry? ==> DictRefsIn(e.dict, |sids|)
    ensures EntryData(e, sids, font, s).Success? ==> Apart(EntryObject(e), s, EntryData(e, sids, font, s).value)
  {
    var r := EntryData(e, sids, font, s);
    if e.DictEntry? {
      DictApart(e.dict, sids, s);
    } else if r.Success? {
      assert r.value == Out(s.bytes + r.value.bytes[|s.bytes|..], s.offsets);
      ApartNone(EntryObject(e), s, r.value.bytes[|s.bytes|..]);
    }
  }

  /** WriteIndexCFF's data stream keeps the placeholders of all the items apart. */
  lemma {:induction false} DataApart(index: seq<IndexEntry>, sids: seq<int>, font: seq<byte>, s: Out, ends: seq<int>)
    requires EntriesRefsIn(index, |sids|)
    ensures var r := DataFrom(index, sids, font, s, ends);
      r.Success? ==> Apart(IndexObject(index), s, r.value.0)
    decreases |index|
  {
    if index == [] {
      ApartNone(IndexObject(index), s, []);
      assert Out(s.bytes + [], s.offsets) == s;
    } else if EntryData(index[0], sids, font, s).Success? {
      var s1 := EntryData(index[0], sids, font, s).value;
      var r := DataFrom(index[1..], sids, font, s1, ends + [|s1.bytes|]);
      if r.Success? {
        EntryRecorded(index[0], sids, font, s);
        EntryApart(index[0], sids, font, s);
        DataRecorded(index[1..], sids, font, s1, ends + [|s1.bytes|]);
        DataApart(index[1..], sids, font, s1, ends + [|s1.bytes|]);
        IndexSplit(index);
        ApartThen(EntryObject(index[0]), IndexObject(index[1..]), IndexObject(index), s, s1, r.value.0);
      }
    }
  }

  /** An INDEX without a dictionary holds no placeholder. */
  lemma {:induction false} NoDictNoTags(index: seq<IndexEntry>, tag: nat)
    requires !HasDict(index)
    ensures TagCount(IndexObject(index), tag) == 0
    decreases |index|
  {
    if index != [] {
      assert !index[0].DictEntry?;
      assert !HasDict(index[1..]) by {
        forall i | 0 <= i < |index[1..]|
          ensures !index[1..][i].DictEntry?
        {
          assert index[1..][i] == index[i + 1];
        }
      }
      NoDictNoTags(index[1..], tag);
      IndexSplit(index);
    }
  }

  /** A slot stays a slot, further on, behind a prefix. */
  lemma SlotShifted(prefix: seq<byte>, bytes: seq<byte>, at: int)
    requires Slot(bytes, at)
    ensures Slot(prefix + bytes, at + |prefix|)
  {
    assert (prefix + bytes)[at + |prefix| - 1] == bytes[at - 1];
    assert (prefix + bytes)[at + |prefix|..at + |prefix| + 4] == bytes[at..at + 4];
  }

  /** AdjustOffsetDictCFF moves a placeholder occurring once by adj and leaves every other Offset. */
  lemma AdjustOnce(o: CffObject, adj: int, offsets: map<nat, int>, adjusted: map<nat, int>, tag: nat)
    requires adjusted == AdjustObject(o, adj, offsets) && TagCount(o, tag) <= 1
    ensures tag in adjusted <==> tag in offsets || TagCount(o, tag) > 0
    ensures tag in offsets ==> adjusted[tag] == offsets[tag] + TagCount(o, tag) * adj
  {
    AdjustedOffset(o, adj, offsets, tag);
  }

  /** A placeholder occurring once, at a slot of the data, is at the moved slot of the whole stream. */
  lemma ShiftedTag(o: CffObject, data: Out, prefix: seq<byte>, adjusted: map<nat, int>, tag: nat)
    requires adjusted == AdjustObject(o, |prefix|, data.offsets) && TagCount(o, tag) == 1
    requires tag in data.offsets && Slot(data.bytes, data.offsets[tag])
    ensures tag in adjusted && adjusted[tag] == data.offsets[tag] + |prefix|
    ensures Slot(prefix + data.bytes, adjusted[tag])
  {
    AdjustOnce(o, |prefix|, data.offsets, adjusted, tag);
    SlotShifted(prefix, data.bytes, data.offsets[tag]);
  }

  /**
   * AdjustOffsetDictCFF on a data stream written from the Offsets m: each
   * placeholder occurring once moves by the length of the prefix put
   * before the data, to the slot it marks in the whole stream.
   */
  lemma Shifted(o: CffObject, m: map<nat, int>, data: Out, s: Out, prefix: seq<byte>, adjusted: map<nat, int>)
    requires forall tag :: TagCount(o, tag) <= 1
    requires Recorded(o, Out([], m), data) && Apart(o, Out([], m), data)
    requires s.offsets == m && |s.bytes| <= |prefix|
    requires adjusted == AdjustObject(o, |prefix|, data.offsets)
    ensures Recorded(o, s, Out(prefix + data.bytes, adjusted)) && Apart(o, s, Out(prefix + data.bytes, adjusted))
  {
    forall tag | TagCount(o, tag) > 0
      ensures tag in adjusted && adjusted[tag] == data.offsets[tag] + |prefix|
      ensures Slot(prefix + data.bytes, adjusted[tag]) && |s.bytes| < adjusted[tag]
    {
      assert tag in data.offsets && Slot(data.bytes, data.offsets[tag]);
      ShiftedTag(o, data, prefix, adjusted, tag);
    }
    forall a, b | TagCount(o, a) > 0 && TagCount(o, b) > 0 && a != b
      ensures adjusted[a] != adjusted[b]
    {
      assert data.offsets[a] != data.offsets[b];
    }
    forall tag | tag in adjusted && TagCount(o, tag) == 0
      ensures tag in s.offsets && adjusted[tag] == s.offsets[tag]
    {
      AdjustOnce(o, |prefix|, data.offsets, adjusted, tag);
    }
    forall tag | tag in s.offsets
      ensures tag in adjusted
    {
      AdjustOnce(o, |prefix|, data.offsets, adjusted, tag);
    }
  }

  /** The header and the adjustment around a data stream that keeps its placeholders apart. */
  lemma AroundPlaced(index: seq<IndexEntry>, s: Out, data: Out, header: seq<byte>, r: Out)
    requires forall tag :: TagCount(IndexObject(index), tag) <= 1
    requires Recorded(IndexObject(index), Out([], s.offsets), data) && Apart(IndexObject(index), Out([], s.offsets), data)
    requires r == Out(s.bytes + header + data.bytes, IndexAdjusted(index, |s.bytes| + |header|, data.offsets))
    ensures Recorded(IndexObject(index), s, r) && Apart(IndexObject(index), s, r)
  {
    if HasDict(index) {
      Shifted(IndexObject(index), s.offsets, data, s, s.bytes + header, r.offsets);
    } else {
      forall tag
        ensures TagCount(IndexObject(index), tag) == 0
      {
        NoDictNoTags(index, tag);
      }
      assert data.offsets == s.offsets;
      RecordedNone(IndexObject(index), s, header + data.bytes);
      ApartNone(IndexObject(index), s, header + data.bytes);
      assert s.bytes + header + data.bytes == s.bytes + (header + data.bytes);
    }
  }

  /**
   * WriteIndexCFF records every placeholder occurring once among its
   * dictionaries at a slot of the whole stream, past what the stream held
   * before, no two at the same position, and keeps every other Offset.
   */
  lemma IndexPlaced(index: seq<IndexEntry>, sids: seq<int>, font: seq<byte>, corrected: bool, s: Out)
    requires EntriesRefsIn(index, |sids|)
    requires forall tag :: TagCount(IndexObject(index), tag) <= 1
    ensures var r := IndexOut(index, sids, font, corrected, s);
      r.Success? ==> Recorded(IndexObject(index), s, r.value) && Apart(IndexObject(index), s, r.value)
  {
    var r := IndexOut(index, sids, font, corrected, s);
    if corrected && index == [] {
      RecordedNone(IndexObject(index), s, ShortBytes(0));
      ApartNone(IndexObject(index), s, ShortBytes(0));
    } else if r.Success? {
      var s0 := Out([], s.offsets);
      var data := DataFrom(index, sids, font, s0, []).value.0;
      var ends := DataFrom(index, sids, font, s0, []).value.1;
      var header := IndexHeader(|index|, IndexOffsets(ends, corrected));
      IndexOutAround(index, sids, font, corrected, s, data, ends, header);
      DataRecorded(index, sids, font, s0, []);
      DataApart(index, sids, font, s0, []);
      AroundPlaced(index, s, data, header, r.value);
    }
  }
}
