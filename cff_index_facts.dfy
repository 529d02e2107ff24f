/**
 * What an INDEX written by WriteIndexCFF reads back as.  As written, the
 * foreach never advances its slot index, so every item's end offset lands
 * in offsets[1] and the later slots stay 0: an INDEX of two or more items
 * does not read back.  With the slot index advanced (corrected = true),
 * an INDEX of strings reads back as those strings.
 */
module CffIndexFacts {
  import opened BigEndian
  import opened Outcome
  import opened CMapDecode
  import opened CffDict
  import opened CffIndex

  // ---------------------------------------------------------------- as written

  /** The data stream of ["a", "b"]: the two bytes, with the data length 1 after the first item and 2 after the second. */
  lemma TwoNamesData()
    ensures DataFrom([Text("a"), Text("b")], [], [], Out([], map[]), []) == Success((Out([97, 98], map[]), [1, 2]))
  {
    var index := [Text("a"), Text("b")];
    var s1 := Out([97], map[]);
    var s2 := Out([97, 98], map[]);
    assert Latin1Bytes("a") == [97] && Latin1Bytes("b") == [98];
    assert [] + [97] == [97] && [97] + [98] == [97, 98];
    assert index[1..][0] == Text("b") && index[1..][1..] == [];
    assert [1] + [2] == [1, 2] && [] + [1] == [1];
    assert DataFrom(index[1..], [], [], s1, [1]) == Success((s2, [1, 2]));
  }

  /** As written, ["a", "b"] gets the offsets 1, 3, 0 (offSize 1 for the last one, 0). */
  lemma TwoNamesAsWritten()
    ensures IndexOut([Text("a"), Text("b")], [], [], false, Out([], map[])) == Success(Out([0, 2, 1, 1, 3, 0, 97, 98], map[]))
  {
    TwoNamesData();
    assert IndexOffsets([1, 2], false) == [1, 3, 0];
    assert IndexHeader(2, [1, 3, 0]) == [0, 2, 1, 1, 3, 0] by {
      assert [1, 3, 0][..2] == [1, 3] && [1, 3][..1] == [1] && [1][..0] == [];
      assert ShortBytes(2) == [0, 2];
    }
    assert !HasDict([Text("a"), Text("b")]);
    assert IndexAdjusted([Text("a"), Text("b")], 6, map[]) == map[];
    assert [] + [0, 2, 1, 1, 3, 0] + [97, 98] == [0, 2, 1, 1, 3, 0, 97, 98];
  }

  /** Reading those bytes back fails: the second item runs from absolute offset 8 back to 5. */
  lemma TwoNamesRead()
    ensures ReadIndex([0, 2, 1, 1, 3, 0, 97, 98], 0, Names) == Failure(NEGATIVE_LENGTH)
  {
    var data: seq<byte> := [0, 2, 1, 1, 3, 0, 97, 98];
    assert U16(ShortAt(data, 0)) == 2;
    var offsets := Offsets(data, 0, 2, 1);
    assert offsets == [6, 8, 5];
    assert ItemStep(data, Names, 8, 5, 8) == Failure(NEGATIVE_LENGTH);
    assert ItemsFrom(data, offsets, Names, 1, 8, [Name(NameAt(data, 6, 2))]) == Failure(NEGATIVE_LENGTH);
  }

  /** As written, an empty INDEX gets an offSize and one offset after its zero count. */
  lemma EmptyIndexAsWritten(sids: seq<int>, font: seq<byte>, s: Out)
    ensures IndexOut([], sids, font, false, s) == Success(Out(s.bytes + [0, 0, 1, 1], s.offsets))
  {
    assert IndexOffsets([], false) == [1];
    assert DataFrom([], sids, font, Out([], s.offsets), []) == Success((Out([], s.offsets), []));
    assert IndexAdjusted([], 4 + |s.bytes|, s.offsets) == s.offsets;
    assert IndexHeader(0, [1]) == [0, 0, 1, 1] by {
      assert [1][..0] == [];
      assert OffsetsBytes(1, [1]) == [1];
      assert ShortBytes(0) == [0, 0];
    }
    assert s.bytes + [0, 0, 1, 1] + [] == s.bytes + [0, 0, 1, 1];
  }

  /** The reader takes only the zero count of those four bytes, and leaves the offSize and the offset behind. */
  lemma EmptyIndexRead(prefix: seq<byte>)
    ensures ReadIndex(prefix + [0, 0, 1, 1], |prefix|, Names) == Success(IndexRead([], |prefix| + 2))
  {
    var data := prefix + [0, 0, 1, 1];
    assert ByteOr0(data, |prefix|) == 0 && ByteOr0(data, |prefix| + 1) == 0;
  }

  // ---------------------------------------------------------------- corrected

  /** An INDEX of strings whose characters lie in 1..255, which ISO-8859-1 keeps and a zero byte does not cut short. */
  predicate PlainNames(index: seq<IndexEntry>)
  {
    forall i | 0 <= i < |index| :: index[i].Text? && forall k | 0 <= k < |index[i].text| :: 0 < index[i].text[k] as int < 256
  }

  /** The items a names INDEX holding those strings reads as. */
  function NamesOf(index: seq<IndexEntry>): (r: seq<IndexItem>)
    requires forall i | 0 <= i < |index| :: index[i].Text?
    ensures |r| == |index| && forall i | 0 <= i < |index| :: r[i] == Name(index[i].text)
  {
    seq(|index|, i requires 0 <= i < |index| => Name(index[i].text))
  }

  /** The bytes of a plain string, at start, read back as that string. */
  lemma NameBack(data: seq<byte>, start: nat, t: string)
    requires forall k | 0 <= k < |t| :: 0 < t[k] as int < 256
    requires At(data, start, Latin1Bytes(t))
    ensures ItemAt(data, Names, start, start + |t|, Name(t))
  {
    var w := Latin1Bytes(t);
    forall k | 0 <= k < |t|
      ensures ByteOr0(data, start + k) == w[k] && w[k] != 0
    {
      ByteOr0At(data, start, w, k);
    }
    assert NameLength(data, start, |t|, 0) == |t|;
    assert BytesAt(data, start, |t|) == w;
    assert Latin1Text(w) == t;
  }

  /**
   * Item j of the data stream, where e holds the data length after each
   * item and items are counted from e[k0]: it starts where item j − 1
   * ended (at `first` for the first one), ends at e[k0 + j], and holds the
   * ISO-8859-1 bytes of t.
   */
  ghost predicate TextAt(bytes: seq<byte>, e: seq<int>, k0: nat, first: int, j: nat, t: string)
    requires k0 + j < |e|
  {
    var start := if j == 0 then first else e[k0 + j - 1];
    0 <= start && e[k0 + j] == start + |t| && At(bytes, start, Latin1Bytes(t))
  }

  /** Bytes at q stay at q when more bytes follow. */
  lemma AtExtended(bytes: seq<byte>, more: seq<byte>, q: nat, w: seq<byte>)
    requires bytes <= more && At(bytes, q, w)
    ensures At(more, q, w)
  {
    assert more[q..q + |w|] == bytes[q..q + |w|];
  }

  /** The foreach over strings writes each one's bytes right after the previous one's. */
  lemma {:induction false} TextsPlaced(index: seq<IndexEntry>, sids: seq<int>, font: seq<byte>, s: Out, ends: seq<int>)
    requires PlainNames(index)
    ensures EntriesRefsIn(index, |sids|)
    ensures var r := DataFrom(index, sids, font, s, ends);
      r.Success? && r.value.0.offsets == s.offsets &&
      forall j | 0 <= j < |index| :: TextAt(r.value.0.bytes, r.value.1, |ends|, |s.bytes|, j, index[j].text)
    decreases |index|
  {
    if index != [] {
      var t := index[0].text;
      var s1 := Out(s.bytes + Latin1Bytes(t), s.offsets);
      assert EntryData(index[0], sids, font, s) == Success(s1);
      assert PlainNames(index[1..]) by {
        forall i | 0 <= i < |index[1..]| ensures index[1..][i] == index[i + 1] { }
      }
      TextsPlaced(index[1..], sids, font, s1, ends + [|s1.bytes|]);
      var r := DataFrom(index, sids, font, s, ends);
      assert r == DataFrom(index[1..], sids, font, s1, ends + [|s1.bytes|]);
      var bytes, e := r.value.0.bytes, r.value.1;
      assert e[|ends|] == (e[..|ends| + 1])[|ends|];
      TextsThen(index, bytes, e, |ends|, s.bytes, s1.bytes);
    }
  }

  /** The first string right after `before`, the others placed from the end of the first on. */
  lemma TextsThen(index: seq<IndexEntry>, bytes: seq<byte>, e: seq<int>, k0: nat, before: seq<byte>, after: seq<byte>)
    requires index != [] && PlainNames(index) && k0 + |index| <= |e|
    requires after == before + Latin1Bytes(index[0].text) && after <= bytes && e[k0] == |after|
    requires forall j | 0 <= j < |index[1..]| :: TextAt(bytes, e, k0 + 1, |after|, j, index[1..][j].text)
    ensures forall j | 0 <= j < |index| :: TextAt(bytes, e, k0, |before|, j, index[j].text)
  {
    var t := index[0].text;
    forall j | 0 <= j < |index|
      ensures TextAt(bytes, e, k0, |before|, j, index[j].text)
    {
      if j == 0 {
        assert At(after, |before|, Latin1Bytes(t)) by {
          assert after[|before|..|before| + |Latin1Bytes(t)|] == Latin1Bytes(t);
        }
        AtExtended(after, bytes, |before|, Latin1Bytes(t));
      } else {
        assert index[1..][j - 1] == index[j];
        assert TextAt(bytes, e, k0 + 1, |after|, j - 1, index[j].text);
      }
    }
  }

  /** The offsets written at q + i·offSize read back, one by one. */
  lemma {:induction false} OffsetsAt(data: seq<byte>, q: nat, offSize: int, offs: seq<int>, i: nat)
    requires 1 <= offSize <= 4 && i < |offs| && At(data, q, OffsetsBytes(offSize, offs))
    ensures At(data, q + i * offSize, OffsetBytes(offSize, offs[i]))
    decreases |offs|
  {
    var init := offs[..|offs| - 1];
    AtSplit(data, q, OffsetsBytes(offSize, init), OffsetBytes(offSize, offs[|offs| - 1]));
    if i < |init| {
      OffsetsAt(data, q, offSize, init, i);
    } else {
      assert |init| == i && |OffsetsBytes(offSize, init)| == offSize * i;
    }
  }

  /** The count and the offSize byte of a header written at p. */
  lemma CountRead(data: seq<byte>, p: nat, count: nat, offs: seq<int>, offSize: int)
    requires 0 < count < 0x1_0000 && |offs| == count + 1 && offSize == OffSizeFor(offs[count])
    requires At(data, p, IndexHeader(count, offs))
    ensures U16(ShortAt(data, p)) == count
    ensures ByteOr0(data, p + 2) as int == offSize
    ensures At(data, p + 3, OffsetsBytes(offSize, offs))
  {
    AtSplit(data, p, ShortBytes(count) + [offSize], OffsetsBytes(offSize, offs));
    AtSplit(data, p, ShortBytes(count), [offSize]);
    CountBack(data, p, count);
    ByteOr0At(data, p + 2, [offSize], 0);
  }

  /** The count read back. */
  lemma CountBack(data: seq<byte>, p: nat, count: nat)
    requires count < 0x1_0000 && At(data, p, ShortBytes(count))
    ensures U16(ShortAt(data, p)) == count
  {
    Pow256Values();
    assert OffsetBytes(2, count) == ShortBytes(count);
    OffsetRoundTrip(data, p, 2, count);
  }

  /** Offset i of a header written at p reads back, made absolute. */
  lemma OffsetRead(data: seq<byte>, p: nat, count: nat, offs: seq<int>, offSize: int, base: int, i: nat)
    requires 0 < count && |offs| == count + 1 && i <= count && 0 <= offs[i] <= offs[count]
    requires offSize == OffSizeFor(offs[count]) && base == p + 3 + (count + 1) * offSize - 1
    requires At(data, p + 3, OffsetsBytes(offSize, offs))
    requires 0 <= base && base + offs[count] < 0x8000_0000
    ensures Offsets(data, p, count, offSize)[i] == base + offs[i]
  {
    var q := p + 3 + i * offSize;
    assert ReadOffset(data, q, offSize) == offs[i] by {
      OffSizeFits(offs[count]);
      OffsetsAt(data, p + 3, offSize, offs, i);
      OffsetRoundTrip(data, q, offSize, offs[i]);
    }
    OffsetsElem(data, p, count, offSize, i, q, base);
    ToInt32Small(ReadOffset(data, q, offSize) + base);
  }

  /** Offset i as ReadIndexCFF makes it absolute. */
  lemma OffsetsElem(data: seq<byte>, p: nat, count: nat, offSize: int, i: nat, q: int, base: int)
    requires i <= count && q == p + 3 + i * offSize && base == p + 3 + (count + 1) * offSize - 1
    ensures Offsets(data, p, count, offSize)[i] == ToInt32(ReadOffset(data, q, offSize) + base)
  {
  }

  /** A value that fits in 31 bits is its own C# int. */
  lemma ToInt32Small(n: int)
    requires 0 <= n < 0x8000_0000
    ensures ToInt32(n) == n
  {
  }

  /** Bytes at q of the data sit at |prefix| + q once the prefix is put in front. */
  lemma AtShifted(prefix: seq<byte>, bytes: seq<byte>, q: nat, w: seq<byte>)
    requires At(bytes, q, w)
    ensures At(prefix + bytes, |prefix| + q, w)
  {
    assert (prefix + bytes)[|prefix| + q..|prefix| + q + |w|] == bytes[q..q + |w|];
  }

  /** Strings placed one after the other behind a prefix are the items of a names INDEX whose offsets point at them. */
  lemma NamesBodyAt(prefix: seq<byte>, bytes: seq<byte>, e: seq<int>, index: seq<IndexEntry>, offsets: seq<int>)
    requires PlainNames(index) && |e| == |index| && |offsets| == |index| + 1
    requires forall j | 0 <= j < |index| :: TextAt(bytes, e, 0, 0, j, index[j].text)
    requires forall j | 0 <= j <= |index| :: offsets[j] == |prefix| + (if j == 0 then 0 else e[j - 1])
    ensures forall j | 0 <= j < |index| :: ItemIsAt(prefix + bytes, Names, offsets, j, NamesOf(index)[j])
  {
    forall j | 0 <= j < |index|
      ensures ItemIsAt(prefix + bytes, Names, offsets, j, NamesOf(index)[j])
    {
      var t := index[j].text;
      var start := if j == 0 then 0 else e[j - 1];
      assert TextAt(bytes, e, 0, 0, j, t);
      AtShifted(prefix, bytes, start, Latin1Bytes(t));
      NameBack(prefix + bytes, |prefix| + start, t);
      assert offsets[j] == |prefix| + start && offsets[j + 1] == |prefix| + start + |t|;
    }
  }

  /** The offsets of the corrected INDEX: one past where each item starts in the data, and one past the data at the end. */
  lemma OffsetsBounded(index: seq<IndexEntry>, bytes: seq<byte>, e: seq<int>)
    requires PlainNames(index) && index != [] && |e| == |index| && e[|e| - 1] == |bytes|
    requires forall j | 0 <= j < |index| :: TextAt(bytes, e, 0, 0, j, index[j].text)
    ensures var offs := IndexOffsets(e, true);
      offs[|index|] == |bytes| + 1 &&
      forall j | 0 <= j <= |index| :: 1 <= offs[j] <= offs[|index|] && offs[j] == 1 + (if j == 0 then 0 else e[j - 1])
  {
    var offs := IndexOffsets(e, true);
    forall j | 0 <= j <= |index|
      ensures 1 <= offs[j] <= offs[|index|] && offs[j] == 1 + (if j == 0 then 0 else e[j - 1])
    {
      if j < |index| {
        assert TextAt(bytes, e, 0, 0, j, index[j].text);
      }
    }
  }

  /** The header and the strings of the corrected INDEX, written after `prefix`, form a names INDEX holding those strings. */
  lemma NamesIndexAt(prefix: seq<byte>, header: seq<byte>, bytes: seq<byte>, e: seq<int>, index: seq<IndexEntry>)
    requires PlainNames(index) && 0 < |index| < 0x1_0000 && |e| == |index| && e[|e| - 1] == |bytes|
    requires forall j | 0 <= j < |index| :: TextAt(bytes, e, 0, 0, j, index[j].text)
    requires header == IndexHeader(|index|, IndexOffsets(e, true))
    requires |prefix + header + bytes| < 0x8000_0000
    ensures IndexAt(prefix + header + bytes, |prefix|, Names, NamesOf(index), |prefix + header + bytes|)
  {
    var count, p := |index|, |prefix|;
    var offs := IndexOffsets(e, true);
    var offSize := OffSizeFor(offs[count]);
    var out := prefix + header + bytes;
    OffsetsBounded(index, bytes, e);
    Placed(prefix, header, bytes);
    CountRead(out, p, count, offs, offSize);
    var base := p + 3 + (count + 1) * offSize - 1;
    assert |header| == 3 + (count + 1) * offSize;
    forall i | 0 <= i <= count
      ensures Offsets(out, p, count, offSize)[i] == |prefix + header| + (if i == 0 then 0 else e[i - 1])
    {
      OffsetRead(out, p, count, offs, offSize, base, i);
    }
    NamesBodyAt(prefix + header, bytes, e, index, Offsets(out, p, count, offSize));
  }

  /**
   * With the slot index advanced, an INDEX of plain strings written after
   * s reads back, from where it starts, as exactly those strings, and the
   * reader stops at its end.
   */
  lemma CorrectedNamesRoundTrip(index: seq<IndexEntry>, sids: seq<int>, font: seq<byte>, s: Out)
    requires PlainNames(index) && |index| < 0x1_0000
    requires EntriesRefsIn(index, |sids|)
    requires var r := IndexOut(index, sids, font, true, s); r.Success? ==> |r.value.bytes| < 0x8000_0000
    ensures var r := IndexOut(index, sids, font, true, s);
      r.Success? && ReadIndex(r.value.bytes, |s.bytes|, Names) == Success(IndexRead(NamesOf(index), |r.value.bytes|))
  {
    var p := |s.bytes|;
    if index == [] {
      assert ShortBytes(0) == [0, 0];
      var out := s.bytes + ShortBytes(0);
      assert ByteOr0(out, p) == 0 && ByteOr0(out, p + 1) == 0;
    } else {
      TextsPlaced(index, sids, font, Out([], s.offsets), []);
      var r := DataFrom(index, sids, font, Out([], s.offsets), []);
      var data, e := r.value.0, r.value.1;
      var header := IndexHeader(|index|, IndexOffsets(e, true));
      IndexOutAround(index, sids, font, true, s, data, e, header);
      NamesIndexAt(s.bytes, header, data.bytes, e, index);
      ReadIndexPlaced(s.bytes + header + data.bytes, p, Names, NamesOf(index), |s.bytes + header + data.bytes|);
    }
  }
}
