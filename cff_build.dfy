/**
 * BuildCFF: the subset's 'CFF ' table.  The top DICT is copied and swept
 * (SweepDictCFF), the strings renumbered (ReindexStringsCff), and then the
 * header, the Name INDEX, the top DICT INDEX, the String INDEX, the global
 * subroutines, the charset, the CharStrings INDEX and the private DICT with
 * its subroutines are written one after the other.  The top DICT carries
 * placeholders for the charset, CharStrings and private DICT offsets, which
 * are only known once those are written; the table's bytes are then patched
 * with SetIntAtIndex at the positions the placeholders recorded.
 *
 * The model uses the corrected WriteIndexCFF (CffIndexFacts) and the
 * corrected SweepDictCFF (a SID stored with operand 28 is accepted).
 */
module CffBuild {
  import opened BigEndian
  import opened Outcome
  import opened Records
  import opened CffToken
  import opened CffDict
  import opened CffIndex
  import opened CffCharset
  import opened CffStrings
  import opened CffPlaced
  import Reindex

  /** KeyCFF.CHARSET, ENCODING, CHARSTRINGS and PRIVATE. */
  const CHARSET: int := 15
  const ENCODING: int := 16
  const CHARSTRINGS: int := 17
  const PRIVATE: int := 18

  /** The three IntPlaceholderCFF objects of BuildCFF. */
  const CHARSET_TAG: nat := 0
  const CHARSTRINGS_TAG: nat := 1
  const PRIVATE_TAG: nat := 2

  const PRIVATE_ERROR: string := "private dict writing error"

  /** The CFF header: version 1.0, header size 4, absolute offset size 3. */
  const HEADER: seq<byte> := [1, 0, 4, 3]

  // ---------------------------------------------------------------- the top DICT

  /** The Dictionary indexer set: the value of an existing key is replaced where it is, a new key goes last. */
  function SetKey(d: seq<(int, CffObject)>, key: int, v: CffObject): (r: seq<(int, CffObject)>)
    requires DistinctKeys(d)
    ensures DistinctKeys(r) && Keys(r) == Keys(d) + {key}
    ensures |d| <= |r| <= |d| + 1
    ensures forall i | 0 <= i < |r| :: if r[i].0 == key then r[i].1 == v else i < |d| && r[i] == d[i]
  {
    match KeyIndex(d, key)
    case Some(i) =>
      var r := d[i := (key, v)];
      assert Keys(r) == Keys(d) by {
        assert forall j | 0 <= j < |d| :: r[j].0 == d[j].0;
      }
      r
    case None =>
      var r := d + [(key, v)];
      assert Keys(r) == Keys(d) + {key} by {
        assert forall j | 0 <= j < |d| :: r[j] == d[j];
        assert r[|d|].0 == key;
      }
      r
  }

  /** Dictionary.Remove: the entries of every other key, in their order. */
  function RemoveKey(d: seq<(int, CffObject)>, key: int): (r: seq<(int, CffObject)>)
    ensures Keys(r) == Keys(d) - {key}
    ensures forall i | 0 <= i < |r| :: r[i] in d
    ensures DistinctKeys(d) ==> DistinctKeys(r)
    decreases |d|
  {
    if d == [] then []
    else
      var rest := RemoveKey(d[1..], key);
      ConsSplit(d);
      KeysCons(d[0], d[1..]);
      DistinctCons(d[0], d[1..]);
      if d[0].0 == key then rest
      else
        KeysCons(d[0], rest);
        DistinctCons(d[0], rest);
        [d[0]] + rest
  }

  /** A non-empty dictionary is its first entry followed by the others. */
  lemma ConsSplit<V>(d: seq<(int, V)>)
    requires d != []
    ensures d == [d[0]] + d[1..]
  {
  }

  /** The keys of an entry followed by a dictionary. */
  lemma KeysCons<V>(e: (int, V), s: seq<(int, V)>)
    ensures Keys([e] + s) == {e.0} + Keys(s)
  {
    var r := [e] + s;
    forall k | k in Keys(r)
      ensures k in {e.0} + Keys(s)
    {
      var j :| 0 <= j < |r| && r[j].0 == k;
      if j > 0 {
        assert s[j - 1].0 == k;
      }
    }
    forall k | k in {e.0} + Keys(s)
      ensures k in Keys(r)
    {
      if k != e.0 {
        var j :| 0 <= j < |s| && s[j].0 == k;
        assert r[j + 1].0 == k;
      } else {
        assert r[0].0 == k;
      }
    }
  }

  /** Distinct keys after an entry: the entry's key is new and the rest are distinct. */
  lemma DistinctCons<V>(e: (int, V), s: seq<(int, V)>)
    ensures DistinctKeys([e] + s) <==> e.0 !in Keys(s) && DistinctKeys(s)
  {
    var r := [e] + s;
    if DistinctKeys(r) {
      forall j | 0 <= j < |s|
        ensures s[j].0 != e.0
      {
        assert r[0] == e && r[j + 1] == s[j];
        assert r[0].0 != r[j + 1].0;
      }
      forall i, j | 0 <= i < j < |s|
        ensures s[i].0 != s[j].0
      {
        assert r[i + 1] == s[i] && r[j + 1] == s[j];
        assert r[i + 1].0 != r[j + 1].0;
      }
    }
    if e.0 !in Keys(s) && DistinctKeys(s) {
      forall i, j | 0 <= i < j < |r|
        ensures r[i].0 != r[j].0
      {
        assert r[j] == s[j - 1];
        if i > 0 {
          assert r[i] == s[i - 1];
        } else {
          assert s[j - 1].0 in Keys(s);
        }
      }
    }
  }

  /** The PRIVATE value ReadCFF relies on: an array whose first element, the private DICT's size, is an integer. */
  predicate PrivateValue(o: CffObject)
  {
    o.Objects? && |o.items| >= 1 && o.items[0].Plain? && (o.items[0].t.Int? || o.items[0].t.Short?)
  }

  /** Every PRIVATE entry of the DICT holds such a value. */
  predicate PrivateOk(d: seq<(int, CffObject)>)
  {
    forall i | 0 <= i < |d| && d[i].0 == PRIVATE :: PrivateValue(d[i].1)
  }

  /**
   * The top DICT as ReadCFF leaves it: read by ReadDictCFF, with an
   * integer size and an offset under PRIVATE (ReadCFF casts that value to
   * object[] and reads its two elements).
   */
  predicate TopShape(top: seq<(int, Operand)>)
  {
    ReadShape(top) &&
    forall i | 0 <= i < |top| && top[i].0 == PRIVATE ::
      top[i].1.Array? && |top[i].1.ts| >= 2 && (top[i].1.ts[0].Int? || top[i].1.ts[0].Short?)
  }

  /** origPrivateDictLen: Convert.ToInt32 of the first PRIVATE operand, or 0 without a private DICT. */
  function PrivateLen(d: seq<(int, CffObject)>): int
    requires PrivateOk(d)
  {
    match KeyIndex(d, PRIVATE)
    case None => 0
    case Some(i) => d[i].1.items[0].t.value
  }

  /** The PRIVATE value becomes { pd[0], privatedict }. */
  function WithPrivate(d: seq<(int, CffObject)>): (r: seq<(int, CffObject)>)
    requires PrivateOk(d) && DistinctKeys(d)
    ensures DistinctKeys(r) && Keys(r) == Keys(d) && |r| == |d|
    ensures forall i | 0 <= i < |r| ::
      r[i].0 == d[i].0 &&
      if r[i].0 == PRIVATE then PrivateValue(d[i].1) && r[i].1 == Objects([d[i].1.items[0], Placeholder(PRIVATE_TAG)]) else r[i] == d[i]
  {
    match KeyIndex(d, PRIVATE)
    case None => d
    case Some(i) => SetKey(d, PRIVATE, Objects([d[i].1.items[0], Placeholder(PRIVATE_TAG)]))
  }

  /**
   * The top DICT BuildCFF writes: the private DICT's offset, the charset
   * and the CharStrings become placeholders, and the Encoding is dropped.
   */
  function PlaceDict(d: seq<(int, CffObject)>): (r: seq<(int, CffObject)>)
    requires PrivateOk(d) && DistinctKeys(d)
    ensures DistinctKeys(r)
  {
    RemoveKey(SetKey(SetKey(WithPrivate(d), CHARSET, Placeholder(CHARSET_TAG)), CHARSTRINGS, Placeholder(CHARSTRINGS_TAG)), ENCODING)
  }

  // ---------------------------------------------------------------- its placeholders

  /** The keys whose values BuildCFF makes placeholders. */
  const PLACED: set<int> := {CHARSET, CHARSTRINGS, PRIVATE}

  /** The key whose value holds placeholder `tag`. */
  function TagKey(tag: nat): int
  {
    if tag == CHARSET_TAG then CHARSET else if tag == CHARSTRINGS_TAG then CHARSTRINGS else if tag == PRIVATE_TAG then PRIVATE else -1
  }

  /** The entries whose key is among `keys` hold their key's placeholder once; no other entry holds one. */
  ghost predicate TagsOn(d: seq<(int, CffObject)>, keys: set<int>)
  {
    forall i, tag {:trigger TagCount(d[i].1, tag)} | 0 <= i < |d| :: TagCount(d[i].1, tag) == (if d[i].0 in keys && d[i].0 == TagKey(tag) then 1 else 0)
  }

  /** An array of tokens holds no placeholder. */
  lemma {:induction false} PlainItems(items: seq<CffObject>, tag: nat)
    requires forall i | 0 <= i < |items| :: items[i].Plain?
    ensures ItemsTagCount(items, tag) == 0
    decreases |items|
  {
    if items != [] {
      PlainItems(items[1..], tag);
    }
  }

  /** The array { pd[0], privatedict } holds the private DICT's placeholder once. */
  lemma PrivateTags(x: CffObject, tag: nat)
    requires x.Plain?
    ensures TagCount(Objects([x, Placeholder(PRIVATE_TAG)]), tag) == if tag == PRIVATE_TAG then 1 else 0
  {
    var p := Placeholder(PRIVATE_TAG);
    assert [x, p][1..] == [p] && [p][1..] == [];
    assert ItemsTagCount([p], tag) == TagCount(p, tag) + ItemsTagCount([], tag);
    assert ItemsTagCount([x, p], tag) == TagCount(x, tag) + ItemsTagCount([p], tag);
  }

  /** Setting a placed key to its placeholder places that key too. */
  lemma SetTags(d: seq<(int, CffObject)>, keys: set<int>, tag0: nat)
    requires DistinctKeys(d) && TagsOn(d, keys) && TagKey(tag0) in {CHARSET, CHARSTRINGS}
    ensures TagsOn(SetKey(d, TagKey(tag0), Placeholder(tag0)), keys + {TagKey(tag0)})
  {
    var key := TagKey(tag0);
    var r := SetKey(d, key, Placeholder(tag0));
    forall i, tag | 0 <= i < |r|
      ensures TagCount(r[i].1, tag) == (if r[i].0 in keys + {key} && r[i].0 == TagKey(tag) then 1 else 0)
    {
      if r[i].0 != key {
        assert r[i] == d[i];
      }
    }
  }

  /** Removing a key keeps the other entries as they were. */
  lemma RemoveTags(d: seq<(int, CffObject)>, keys: set<int>, key: int)
    requires TagsOn(d, keys)
    ensures TagsOn(RemoveKey(d, key), keys)
  {
    var r := RemoveKey(d, key);
    forall i, tag | 0 <= i < |r|
      ensures TagCount(r[i].1, tag) == (if r[i].0 in keys && r[i].0 == TagKey(tag) then 1 else 0)
    {
      assert r[i] in d;
      var j :| 0 <= j < |d| && d[j] == r[i];
      assert TagCount(d[j].1, tag) == (if d[j].0 in keys && d[j].0 == TagKey(tag) then 1 else 0);
    }
  }

  /** { pd[0], privatedict } places PRIVATE. */
  lemma WithPrivateTags(d: seq<(int, CffObject)>)
    requires PrivateOk(d) && DistinctKeys(d) && TagsOn(d, {})
    ensures TagsOn(WithPrivate(d), {PRIVATE})
  {
    var w := WithPrivate(d);
    forall i, tag | 0 <= i < |w|
      ensures TagCount(w[i].1, tag) == (if w[i].0 in {PRIVATE} && w[i].0 == TagKey(tag) then 1 else 0)
    {
      if w[i].0 == PRIVATE {
        PrivateTags(d[i].1.items[0], tag);
      } else {
        assert TagCount(d[i].1, tag) == 0;
      }
    }
  }

  /**
   * The DICT BuildCFF writes holds the charset and CharStrings placeholders
   * under their keys, the private DICT's under PRIVATE, and no other; the
   * Encoding is gone and the charset and CharStrings are always there.
   */
  lemma PlaceTags(d: seq<(int, CffObject)>)
    requires PrivateOk(d) && DistinctKeys(d)
    requires TagsOn(d, {})
    ensures TagsOn(PlaceDict(d), PLACED)
    ensures Keys(PlaceDict(d)) == Keys(d) + {CHARSET, CHARSTRINGS} - {ENCODING}
  {
    var w := WithPrivate(d);
    WithPrivateTags(d);
    SetTags(w, {PRIVATE}, CHARSET_TAG);
    var s1 := SetKey(w, CHARSET, Placeholder(CHARSET_TAG));
    SetTags(s1, {PRIVATE, CHARSET}, CHARSTRINGS_TAG);
    var s2 := SetKey(s1, CHARSTRINGS, Placeholder(CHARSTRINGS_TAG));
    assert {PRIVATE, CHARSET} + {CHARSTRINGS} == PLACED;
    RemoveTags(s2, PLACED, ENCODING);
  }

  /** The keys after the first entry. */
  lemma KeysTail(d: seq<(int, CffObject)>)
    requires d != [] && DistinctKeys(d)
    ensures Keys(d) == {d[0].0} + Keys(d[1..]) && d[0].0 !in Keys(d[1..]) && DistinctKeys(d[1..])
  {
    assert forall j | 0 <= j < |d[1..]| :: d[1..][j] == d[j + 1];
  }

  /** Writing the values of such a DICT writes each placeholder whose key is there once, and no other. */
  lemma {:induction false} ValuesTags(d: seq<(int, CffObject)>, tag: nat)
    requires DistinctKeys(d) && TagsOn(d, PLACED)
    ensures TagCount(Values(d), tag) == if TagKey(tag) in PLACED && TagKey(tag) in Keys(d) then 1 else 0
    decreases |d|
  {
    if d == [] {
      assert Values(d).items == [];
    } else {
      KeysTail(d);
      assert TagsOn(d[1..], PLACED) by {
        forall i, t | 0 <= i < |d[1..]|
          ensures TagCount(d[1..][i].1, t) == (if d[1..][i].0 in PLACED && d[1..][i].0 == TagKey(t) then 1 else 0)
        {
          assert d[1..][i] == d[i + 1];
        }
      }
      ValuesTags(d[1..], tag);
      ValuesSplit(d);
      assert TagCount(d[0].1, tag) == (if d[0].0 in PLACED && d[0].0 == TagKey(tag) then 1 else 0);
    }
  }

  /** The top DICT INDEX holds what the one DICT holds. */
  lemma OneDictTags(d: seq<(int, CffObject)>, tag: nat)
    ensures TagCount(IndexObject([DictEntry(d)]), tag) == TagCount(Values(d), tag)
  {
    var items := IndexObject([DictEntry(d)]).items;
    assert items == [Values(d)] && items[1..] == [];
    assert ItemsTagCount(items, tag) == TagCount(Values(d), tag) + ItemsTagCount([], tag);
  }

  /** One entry of the swept copy: its key, no placeholder, references to the n strings only, PRIVATE as read. */
  lemma SweptEntry(top: seq<(int, Operand)>, n: nat, d: seq<(int, CffObject)>, i: nat)
    requires TopShape(top) && OkOn(DictObjects(top), SID_KEYS, n, true)
    requires d == SweptOn(DictObjects(top), SID_KEYS, true) && i < |d|
    ensures d[i].0 == top[i].0 && RefsIn(d[i].1, n)
    ensures forall tag :: TagCount(d[i].1, tag) == 0
    ensures d[i].0 == PRIVATE ==> PrivateValue(d[i].1)
  {
    var o := DictObjects(top)[i].1;
    forall tag
      ensures TagCount(d[i].1, tag) == 0
    {
      if top[i].1.Array? {
        PlainItems(o.items, tag);
      }
    }
    if top[i].0 in SID_KEYS {
      SweptWritesSid(o, n, true, Out([], map[]));
    }
  }

  /**
   * The copy of the top DICT after SweepDictCFF: the keys ReadDictCFF
   * read, each once, a private DICT entry as ReadCFF used it, no
   * placeholder, and references to the n strings only.
   */
  /** DictObjects keeps every key in its place. */
  lemma ObjectsKeys(top: seq<(int, Operand)>)
    ensures forall i | 0 <= i < |top| :: DictObjects(top)[i].0 == top[i].0
    ensures DistinctKeys(top) ==> DistinctKeys(DictObjects(top))
  {
  }

  /** Entry-by-entry facts about a copy of top give the copy's shape. */
  lemma ShapeFrom(top: seq<(int, Operand)>, d: seq<(int, CffObject)>, n: nat)
    requires DistinctKeys(top) && |d| == |top|
    requires forall i | 0 <= i < |d| :: d[i].0 == top[i].0 && RefsIn(d[i].1, n)
    requires forall i, tag | 0 <= i < |d| :: TagCount(d[i].1, tag) == 0
    requires PrivateOk(d)
    ensures DistinctKeys(d) && PrivateOk(d) && TagsOn(d, {}) && DictRefsIn(d, n) && Keys(d) == Keys(top)
  {
    assert Keys(d) == Keys(top);
  }

  lemma SweptShape(top: seq<(int, Operand)>, n: nat)
    requires TopShape(top) && SweepDict(DictObjects(top), n, true).Success?
    ensures var d := SweepDict(DictObjects(top), n, true).value.0;
      DistinctKeys(d) && PrivateOk(d) && TagsOn(d, {}) && DictRefsIn(d, n) && Keys(d) == Keys(top)
  {
    ObjectsKeys(top);
    SweepDictPointwise(DictObjects(top), n, true);
    var d := SweepDict(DictObjects(top), n, true).value.0;
    forall i | 0 <= i < |d|
      ensures d[i].0 == top[i].0 && RefsIn(d[i].1, n)
      ensures forall tag :: TagCount(d[i].1, tag) == 0
      ensures d[i].0 == PRIVATE ==> PrivateValue(d[i].1)
    {
      SweptEntry(top, n, d, i);
    }
    ShapeFrom(top, d, n);
  }

  /** The copied top DICT refers to no string. */
  lemma ObjectsRefsIn(d: seq<(int, Operand)>, n: nat)
    ensures DictRefsIn(DictObjects(d), n)
  {
    forall i | 0 <= i < |d|
      ensures RefsIn(DictObjects(d)[i].1, n)
    {
      assert RefsIn(DictObjects(d)[i].1, 0);
    }
  }

  /** The placeholders and the kept first PRIVATE operand refer to no string. */
  lemma PlaceRefs(d: seq<(int, CffObject)>, n: nat)
    requires PrivateOk(d) && DistinctKeys(d) && DictRefsIn(d, n)
    ensures DictRefsIn(PlaceDict(d), n)
  {
    var w := WithPrivate(d);
    assert DictRefsIn(w, n) by {
      forall i | 0 <= i < |w|
        ensures RefsIn(w[i].1, n)
      {
        if w[i].0 == PRIVATE {
          assert RefsIn(d[i].1.items[0], n);
        }
      }
    }
    var s1 := SetKey(w, CHARSET, Placeholder(CHARSET_TAG));
    assert DictRefsIn(s1, n) by {
      forall i | 0 <= i < |s1|
        ensures RefsIn(s1[i].1, n)
      {
        if s1[i].0 != CHARSET {
          assert s1[i] == w[i];
        }
      }
    }
    var s2 := SetKey(s1, CHARSTRINGS, Placeholder(CHARSTRINGS_TAG));
    assert DictRefsIn(s2, n) by {
      forall i | 0 <= i < |s2|
        ensures RefsIn(s2[i].1, n)
      {
        if s2[i].0 != CHARSTRINGS {
          assert s2[i] == s1[i];
        }
      }
    }
    var r := RemoveKey(s2, ENCODING);
    forall i | 0 <= i < |r|
      ensures RefsIn(r[i].1, n)
    {
      var j :| 0 <= j < |s2| && s2[j] == r[i];
      assert RefsIn(s2[j].1, n);
    }
  }

  // ---------------------------------------------------------------- the CharStrings INDEX

  /** The needed glyphs, in glyph order, as the spans of the input font WriteIndexCFF copies. */
  function NeededEntries(glyphs: seq<GlyphData>): (r: seq<IndexEntry>)
    ensures |r| <= |glyphs| && forall i | 0 <= i < |r| :: r[i].Copy?
  {
    if glyphs == [] then []
    else
      var g := glyphs[|glyphs| - 1];
      NeededEntries(glyphs[..|glyphs| - 1]) + (if g.needed then [Copy(g.offset, g.length)] else [])
  }

  /** n null elements. */
  function Nulls(n: nat): (r: seq<IndexEntry>)
    ensures |r| == n && forall i | 0 <= i < n :: r[i] == Missing
  {
    seq(n, _ => Missing)
  }

  /**
   * MakeGlyphArrayCff: an array of `count` elements whose first elements
   * are the needed glyphs and whose others stay null.  A negative size
   * overflows, and one needed glyph too many runs past the array's end.
   */
  function GlyphArray(glyphs: seq<GlyphData>, count: int): (r: Result<seq<IndexEntry>>)
  {
    var e := NeededEntries(glyphs);
    if count < 0 then Failure(ARRAY_OVERFLOW)
    else if |e| > count then Failure(ARRAY_INDEX_ERROR)
    else Success(e + Nulls(count - |e|))
  }

  /** Fewer glyphs are needed among a prefix of the list. */
  lemma {:induction false} NeededPrefix(glyphs: seq<GlyphData>, k: nat)
    requires k <= |glyphs|
    ensures |NeededEntries(glyphs[..k])| <= |NeededEntries(glyphs)|
    decreases |glyphs| - k
  {
    if k < |glyphs| {
      NeededPrefix(glyphs, k + 1);
      assert glyphs[..k + 1][..k] == glyphs[..k];
    } else {
      assert glyphs[..k] == glyphs;
    }
  }

  /** MakeGlyphArrayCff: the foreach over the glyphs, storing each needed one at the next index. */
  method MakeGlyphArrayCff(glyphs: seq<GlyphData>, count: int) returns (r: Result<seq<IndexEntry>>)
    ensures r == GlyphArray(glyphs, count)
  {
    if count < 0 {
      return Failure(ARRAY_OVERFLOW);
    }
    var subset := new IndexEntry[count](_ => Missing);
    var index := 0;
    for k := 0 to |glyphs|
      invariant index == |NeededEntries(glyphs[..k])| <= count
      invariant subset[..] == NeededEntries(glyphs[..k]) + Nulls(count - index)
    {
      assert glyphs[..k + 1][..k] == glyphs[..k];
      var g := glyphs[k];
      if g.needed {
        if index >= count {
          NeededPrefix(glyphs, k + 1);
          return Failure(ARRAY_INDEX_ERROR);
        }
        subset[index] := Copy(g.offset, g.length);
        index := index + 1;
      }
    }
    assert glyphs[..|glyphs|] == glyphs;
    return Success(subset[..]);
  }

  /** An INDEX with a null element is never written: WriteIndexCFF throws on it. */
  lemma {:induction false} NullFails(index: seq<IndexEntry>, sids: seq<int>, font: seq<byte>, s: Out, ends: seq<int>, k: nat)
    requires EntriesRefsIn(index, |sids|) && k < |index| && index[k] == Missing
    ensures DataFrom(index, sids, font, s, ends).Failure?
    decreases |index|
  {
    if k > 0 && EntryData(index[0], sids, font, s).Success? {
      var s1 := EntryData(index[0], sids, font, s).value;
      assert EntriesRefsIn(index[1..], |sids|) by {
        assert forall i | 0 <= i < |index[1..]| :: index[1..][i] == index[i + 1];
      }
      NullFails(index[1..], sids, font, s1, ends + [|s1.bytes|], k - 1);
    }
  }

  /** BuildCFF fails unless NewGlyphCount is the number of needed glyphs. */
  lemma CharStringsCount(glyphs: seq<GlyphData>, count: int, sids: seq<int>, font: seq<byte>, s: Out)
    requires GlyphArray(glyphs, count).Success?
    ensures EntriesRefsIn(GlyphArray(glyphs, count).value, |sids|)
    ensures IndexOut(GlyphArray(glyphs, count).value, sids, font, true, s).Success? ==> count == |NeededEntries(glyphs)|
  {
    var e := NeededEntries(glyphs);
    var a := GlyphArray(glyphs, count).value;
    if count > |e| && IndexOut(a, sids, font, true, s).Success? {
      NullFails(a, sids, font, Out([], s.offsets), [], |e|);
    }
  }

  /** After ReindexGlyphs the needed glyphs are the kept ones. */
  lemma {:induction false} KeptEntries(gs: seq<GlyphData>, i: nat)
    requires i <= |gs|
    ensures |NeededEntries(Reindex.Reindexed(gs)[..i])| == Reindex.Rank(gs, i)
  {
    if i > 0 {
      var r := Reindex.Reindexed(gs);
      assert r[..i][..i - 1] == r[..i - 1];
      KeptEntries(gs, i - 1);
    }
  }

  /** After ReindexGlyphs, MakeGlyphArrayCff fills the NewGlyphCount elements with the kept glyphs. */
  lemma GlyphArrayFull(gs: seq<GlyphData>)
    ensures GlyphArray(Reindex.Reindexed(gs), Reindex.NewGlyphCount(gs)) == Success(NeededEntries(Reindex.Reindexed(gs)))
  {
    var r := Reindex.Reindexed(gs);
    KeptEntries(gs, |gs|);
    assert r[..|gs|] == r;
    assert NeededEntries(r) + Nulls(0) == NeededEntries(r);
  }

  // ---------------------------------------------------------------- the table

  /** An INDEX read with CFF_INDEX_BINARY_RANGE: spans of the input font only. */
  predicate Spans(index: seq<IndexEntry>)
  {
    forall i | 0 <= i < |index| :: index[i].Copy?
  }

  /** The String INDEX of a list of strings. */
  function Texts(strings: seq<string>): (r: seq<IndexEntry>)
    ensures |r| == |strings| && forall i | 0 <= i < |r| :: r[i] == Text(strings[i])
  {
    seq(|strings|, i requires 0 <= i < |strings| => Text(strings[i]))
  }

  /**
   * BuildCFF up to the global subroutines, with the strings renumbered as
   * `sids`: the header, the Name INDEX, the top DICT INDEX holding the
   * placed DICT d, the String INDEX and the Global Subr INDEX.
   */
  function FrontOut(font: seq<byte>, d: seq<(int, CffObject)>, strings: seq<string>, name: string, gsubrs: seq<IndexEntry>, sids: seq<int>)
    : Result<Out>
    requires DictRefsIn(d, |sids|) && Spans(gsubrs)
  {
    match IndexOut([Text(SUBSET_PREFIX + name)], sids, font, true, Out(HEADER, map[]))
    case Failure(e) => Failure(e)
    case Success(s1) =>
      match IndexOut([DictEntry(d)], sids, font, true, s1)
      case Failure(e) => Failure(e)
      case Success(s2) =>
        match IndexOut(Texts(strings), sids, font, true, s2)
        case Failure(e) => Failure(e)
        case Success(s3) => IndexOut(gsubrs, sids, font, true, s3)
  }

  /**
   * The private DICT and its subroutines, from state s: the DICT, the check
   * that it took origPrivateDictLen bytes, then the Subrs INDEX.
   */
  function PrivateOut(font: seq<byte>, s: Out, sids: seq<int>, priv: Option<seq<(int, Operand)>>, origLen: int, privSubrs: Option<seq<IndexEntry>>)
    : Result<Out>
    requires privSubrs.Some? ==> Spans(privSubrs.value)
  {
    if priv.None? then Success(s)
    else
      ObjectsRefsIn(priv.value, |sids|);
      match EmitDict(DictObjects(priv.value), sids, s)
      case Failure(e) => Failure(e)
      case Success(t) =>
        if ToInt32(ToInt32(|t.bytes|) - ToInt32(|s.bytes|)) != origLen then Failure(PRIVATE_ERROR)
        else if privSubrs.None? then Success(t)
        else IndexOut(privSubrs.value, sids, font, true, t)
  }

  /**
   * The stream BuildCFF has written before the patches, with the lengths it
   * noted: where the charset, the CharStrings INDEX and the private DICT
   * begin.
   */
  datatype Layout = Layout(front: Out, charset: int, charStrings: int, privateDict: int, out: Out)

  /** BuildCFF after the global subroutines: the charset, the CharStrings INDEX, the private DICT. */
  function BackOut(font: seq<byte>, front: Out, sids: seq<int>, glyphs: seq<GlyphData>, count: int,
                   priv: Option<seq<(int, Operand)>>, origLen: int, privSubrs: Option<seq<IndexEntry>>): Result<Layout>
    requires privSubrs.Some? ==> Spans(privSubrs.value)
  {
    match CharsetOut(glyphs, sids)
    case Failure(e) => Failure(e)
    case Success(cs) =>
      var s5 := Out(front.bytes + cs, front.offsets);
      match GlyphArray(glyphs, count)
      case Failure(e) => Failure(e)
      case Success(subset) =>
        match IndexOut(subset, sids, font, true, s5)
        case Failure(e) => Failure(e)
        case Success(s6) =>
          match PrivateOut(font, s6, sids, priv, origLen, privSubrs)
          case Failure(e) => Failure(e)
          case Success(s7) => Success(Layout(front, |front.bytes|, |s5.bytes|, |s6.bytes|, s7))
  }

  /** SetIntAtIndex on the table's bytes: the four bytes of v at `at`, or the exception of an access past the array. */
  function Patch(bytes: seq<byte>, at: int, v: int): (r: Result<seq<byte>>)
    ensures r.Success? <==> 0 <= at && at + 4 <= |bytes|
    ensures r.Success? ==> |r.value| == |bytes| && r.value[at..at + 4] == IntBytes(v)
    ensures r.Success? ==> forall i | 0 <= i < |bytes| && !(at <= i < at + 4) :: r.value[i] == bytes[i]
  {
    if 0 <= at && at + 4 <= |bytes| then Success(bytes[..at] + IntBytes(v) + bytes[at + 4..]) else Failure(ARRAY_INDEX_ERROR)
  }

  /**
   * The end of BuildCFF: the (int) casts of the noted lengths are written
   * at the Offset of the charset and CharStrings placeholders, and of the
   * private DICT placeholder when the font has a private DICT.
   */
  function Patched(l: Layout, hasPrivate: bool): Result<seq<byte>>
  {
    var m := l.out.offsets;
    match Patch(l.out.bytes, OffsetOf(m, CHARSET_TAG), ToInt32(l.charset))
    case Failure(e) => Failure(e)
    case Success(b1) =>
      match Patch(b1, OffsetOf(m, CHARSTRINGS_TAG), ToInt32(l.charStrings))
      case Failure(e) => Failure(e)
      case Success(b2) => if hasPrivate then Patch(b2, OffsetOf(m, PRIVATE_TAG), ToInt32(l.privateDict)) else Success(b2)
  }

  /** The top DICT BuildCFF writes, once SweepDictCFF has accepted the copy. */
  function TopDict(top: seq<(int, Operand)>, n: nat): (r: Result<seq<(int, CffObject)>>)
    requires TopShape(top)
    ensures r.Success? ==> DistinctKeys(r.value) && DictRefsIn(r.value, n) && TagsOn(r.value, PLACED)
    ensures r.Success? ==> Keys(r.value) == Keys(top) + {CHARSET, CHARSTRINGS} - {ENCODING}
  {
    match SweepDict(DictObjects(top), n, true)
    case Failure(e) => Failure(e)
    case Success((swept, _)) =>
      SweptShape(top, n);
      PlaceRefs(swept, n);
      PlaceTags(swept);
      Success(PlaceDict(swept))
  }

  /** origPrivateDictLen, read from the swept copy of the top DICT. */
  function OrigPrivateLen(top: seq<(int, Operand)>, n: nat): int
    requires TopShape(top)
  {
    match SweepDict(DictObjects(top), n, true)
    case Failure(_) => 0
    case Success((swept, _)) =>
      SweptShape(top, n);
      PrivateLen(swept)
  }

  /**
   * BuildCFF on a font with top DICT `top`, string list `values`, name
   * `name`, global subroutines `gsubrs`, glyph list `glyphs`, NewGlyphCount
   * `count`, and the private DICT and its subroutines when ReadCFF found
   * them, up to the patches: the stream it writes, or the exception.
   */
  function CffLayout(font: seq<byte>, top: seq<(int, Operand)>, values: seq<string>, name: string, gsubrs: seq<IndexEntry>,
                     glyphs: seq<GlyphData>, count: int, priv: Option<seq<(int, Operand)>>, privSubrs: Option<seq<IndexEntry>>)
    : Result<Layout>
    requires TopShape(top) && Spans(gsubrs) && (privSubrs.Some? ==> Spans(privSubrs.value))
  {
    var sids := SameSids(|values|);
    match TopDict(top, |values|)
    case Failure(e) => Failure(e)
    case Success(d) =>
      match FrontOut(font, d, SubsetStrings(values, name), name, gsubrs, sids)
      case Failure(e) => Failure(e)
      case Success(front) => BackOut(font, front, sids, glyphs, count, priv, OrigPrivateLen(top, |values|), privSubrs)
  }

  /** BuildCFF: the table's bytes, or the exception it throws. */
  function CffOut(font: seq<byte>, top: seq<(int, Operand)>, values: seq<string>, name: string, gsubrs: seq<IndexEntry>,
                  glyphs: seq<GlyphData>, count: int, priv: Option<seq<(int, Operand)>>, privSubrs: Option<seq<IndexEntry>>)
    : Result<seq<byte>>
    requires TopShape(top) && Spans(gsubrs) && (privSubrs.Some? ==> Spans(privSubrs.value))
  {
    match CffLayout(font, top, values, name, gsubrs, glyphs, count, priv, privSubrs)
    case Failure(e) => Failure(e)
    case Success(l) => Patched(l, priv.Some?)
  }

  /** SetIntAtIndex, with the exception an index past the array throws. */
  method SetPlaceholder(result: array<byte>, at: int, value: int) returns (ok: bool)
    requires IsInt32(value)
    modifies result
    ensures var p := Patch(old(result[..]), at, value);
      ok == p.Success? && (ok ==> result[..] == p.value) && (!ok ==> result[..] == old(result[..]))
  {
    if !(0 <= at && at + 4 <= result.Length) {
      return false;
    }
    SetIntAtIndex(result, at, value);
    return true;
  }

  /** What writing the swept top DICT needs. */
  lemma SweptReady(top: seq<(int, Operand)>, n: nat)
    requires TopShape(top) && SweepDict(DictObjects(top), n, true).Success?
    ensures var d := SweepDict(DictObjects(top), n, true).value.0;
      PrivateOk(d) && DistinctKeys(d) && DictRefsIn(PlaceDict(d), n)
  {
    SweptShape(top, n);
    PlaceRefs(SweepDict(DictObjects(top), n, true).value.0, n);
  }

  /**
   * BuildCFF.  `needed` and `newIndex` are the Needed and NewIndex fields
   * of the font's strings, which SweepDictCFF and ReindexStringsCff set.
   */
  method BuildCff(font: seq<byte>, top: seq<(int, Operand)>, values: seq<string>, name: string, gsubrs: seq<IndexEntry>,
                  glyphs: seq<GlyphData>, count: int, priv: Option<seq<(int, Operand)>>, privSubrs: Option<seq<IndexEntry>>,
                  needed: array<bool>, newIndex: array<int>)
    returns (r: Result<seq<byte>>)
    requires TopShape(top) && Spans(gsubrs) && (privSubrs.Some? ==> Spans(privSubrs.value))
    requires needed.Length == |values| && newIndex.Length == |values|
    modifies needed, newIndex
    ensures r == CffOut(font, top, values, name, gsubrs, glyphs, count, priv, privSubrs)
  {
    var swept := SweepDictCff(DictObjects(top), needed, true);
    if swept.Failure? {
      return Failure(swept.error);
    }
    SweptReady(top, |values|);
    var newStrings := ReindexStringsCff(values, needed, newIndex, name);
    var sids := newIndex[..];
    assert |sids| == |values|;
    var out := new ByteStream();
    WriteHeaderCff(out);
    var origPrivateDictLen := PrivateLen(swept.value);
    var w := WriteFrontCff(out, font, swept.value, newStrings, name, gsubrs, sids);
    if w.Failure? {
      return Failure(w.error);
    }
    var l := WriteBackCff(out, font, sids, glyphs, count, priv, origPrivateDictLen, privSubrs, w.value);
    if l.Failure? {
      return Failure(l.error);
    }
    r := PatchCff(out.bytes, l.value, priv.Some?);
  }

  /** The four header bytes BuildCFF writes first. */
  method WriteHeaderCff(out: ByteStream)
    modifies out
    ensures out.bytes == old(out.bytes) + HEADER
  {
    out.WriteByte(1); // major version
    out.WriteByte(0); // minor version
    out.WriteByte(4); // header size
    out.WriteByte(3); // absolute offset size
  }

  /**
   * BuildCFF from the Name INDEX to the Global Subr INDEX, on a stream
   * holding the header: the top DICT is given its placeholders and loses
   * its Encoding between the Name INDEX and the top DICT INDEX.
   */
  method WriteFrontCff(out: ByteStream, font: seq<byte>, swept: seq<(int, CffObject)>, strings: seq<string>, name: string,
                       gsubrs: seq<IndexEntry>, sids: seq<int>)
    returns (r: Result<map<nat, int>>)
    requires PrivateOk(swept) && DistinctKeys(swept) && DictRefsIn(PlaceDict(swept), |sids|) && Spans(gsubrs)
    requires out.bytes == HEADER
    modifies out
    ensures var e := FrontOut(font, PlaceDict(swept), strings, name, gsubrs, sids);
      r.Success? == e.Success? && (r.Success? ==> Out(out.bytes, r.value) == e.value) && (r.Failure? ==> r.error == e.error)
  {
    var w := WriteIndexCff(out, font, [Text(SUBSET_PREFIX + name)], sids, map[], true);
    if w.Failure? {
      return Failure(w.error);
    }
    var d := WithPrivate(swept);
    d := SetKey(d, CHARSET, Placeholder(CHARSET_TAG));
    d := SetKey(d, CHARSTRINGS, Placeholder(CHARSTRINGS_TAG));
    d := RemoveKey(d, ENCODING);
    w := WriteIndexCff(out, font, [DictEntry(d)], sids, w.value, true);
    if w.Failure? {
      return Failure(w.error);
    }
    w := WriteIndexCff(out, font, Texts(strings), sids, w.value, true);
    if w.Failure? {
      return Failure(w.error);
    }
    r := WriteIndexCff(out, font, gsubrs, sids, w.value, true);
  }

  /**
   * BuildCFF from the charset on, on a stream holding the front part with
   * placeholders `offsets`: the layout it writes, or the exception.
   */
  method WriteBackCff(out: ByteStream, font: seq<byte>, sids: seq<int>, glyphs: seq<GlyphData>, count: int,
                      priv: Option<seq<(int, Operand)>>, origPrivateDictLen: int, privSubrs: Option<seq<IndexEntry>>,
                      offsets: map<nat, int>)
    returns (r: Result<Layout>)
    requires privSubrs.Some? ==> Spans(privSubrs.value)
    modifies out
    ensures var e := BackOut(font, Out(old(out.bytes), offsets), sids, glyphs, count, priv, origPrivateDictLen, privSubrs);
      r == e && (r.Success? ==> out.bytes == r.value.out.bytes)
  {
    var front := Out(out.bytes, offsets);
    var charsetOffset := |out.bytes|;
    var c := WriteCharsetCff(out, glyphs, sids);
    if c.Failure? {
      return Failure(c.error);
    }
    var charstringsOffset := |out.bytes|;
    var subset := MakeGlyphArrayCff(glyphs, count);
    if subset.Failure? {
      return Failure(subset.error);
    }
    CharStringsCount(glyphs, count, sids, font, Out(out.bytes, offsets));
    var w := WriteIndexCff(out, font, subset.value, sids, offsets, true);
    if w.Failure? {
      return Failure(w.error);
    }
    var privatedictOffset := |out.bytes|;
    var p := WritePrivateCff(out, font, sids, priv, origPrivateDictLen, privSubrs, w.value);
    if p.Failure? {
      return Failure(p.error);
    }
    return Success(Layout(front, charsetOffset, charstringsOffset, privatedictOffset, Out(out.bytes, p.value)));
  }

  /** The private DICT part of BuildCFF, on a stream with placeholders `offsets`. */
  method WritePrivateCff(out: ByteStream, font: seq<byte>, sids: seq<int>, priv: Option<seq<(int, Operand)>>, origPrivateDictLen: int,
                         privSubrs: Option<seq<IndexEntry>>, offsets: map<nat, int>)
    returns (r: Result<map<nat, int>>)
    requires privSubrs.Some? ==> Spans(privSubrs.value)
    modifies out
    ensures var e := PrivateOut(font, Out(old(out.bytes), offsets), sids, priv, origPrivateDictLen, privSubrs);
      r.Success? == e.Success? && (r.Success? ==> Out(out.bytes, r.value) == e.value) && (r.Failure? ==> r.error == e.error)
  {
    if priv.None? {
      return Success(offsets);
    }
    var privatedictOffset := |out.bytes|;
    ObjectsRefsIn(priv.value, |sids|);
    var w := WriteDictCff(out, DictObjects(priv.value), sids, offsets);
    if w.Failure? {
      return Failure(w.error);
    }
    var privatesubrOffset := |out.bytes|;
    if ToInt32(ToInt32(privatesubrOffset) - ToInt32(privatedictOffset)) != origPrivateDictLen {
      return Failure(PRIVATE_ERROR);
    }
    if privSubrs.Some? {
      r := WriteIndexCff(out, font, privSubrs.value, sids, w.value, true);
    } else {
      r := w;
    }
  }

  /** The SetIntAtIndex calls at the end of BuildCFF, on the table's bytes. */
  method PatchCff(bytes: seq<byte>, l: Layout, hasPrivate: bool) returns (r: Result<seq<byte>>)
    requires bytes == l.out.bytes
    ensures r == Patched(l, hasPrivate)
  {
    var result := new byte[|bytes|](i requires 0 <= i < |bytes| => bytes[i]);
    assert result[..] == bytes;
    var m := l.out.offsets;
    var ok := SetPlaceholder(result, OffsetOf(m, CHARSET_TAG), ToInt32(l.charset));
    if !ok {
      return Failure(ARRAY_INDEX_ERROR);
    }
    ok := SetPlaceholder(result, OffsetOf(m, CHARSTRINGS_TAG), ToInt32(l.charStrings));
    if !ok {
      return Failure(ARRAY_INDEX_ERROR);
    }
    if hasPrivate {
      ok := SetPlaceholder(result, OffsetOf(m, PRIVATE_TAG), ToInt32(l.privateDict));
      if !ok {
        return Failure(ARRAY_INDEX_ERROR);
      }
    }
    return Success(result[..]);
  }
}
