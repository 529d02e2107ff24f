/**
 * The CFF string list of the subset font.  ReindexStringsCff keeps every
 * string, renames the font's own name to "Subset-" + name and numbers the
 * strings from 391 on in their old order; SweepDictCFF replaces each
 * string-valued operand of the top DICT by the string it names, so that
 * WriteObjectCFF writes the string's new number.
 */
module CffStrings {
  import opened BigEndian
  import opened Outcome
  import opened Records
  import opened CffToken
  import opened CffDict
  import opened CffCharset

  /** The prefix BuildCFF gives the font's name. */
  const SUBSET_PREFIX: string := "Subset-"
  /** What SweepDictCFF throws for a SID operand that is not an int. */
  const SID_ERROR: string := "unsupported value for SID key"

  /**
   * The top DICT operators whose operand is a SID: version, Notice,
   * FullName, FamilyName, Weight, Copyright, PostScript, BaseFontName, ROS
   * and FontName.
   */
  const SID_KEYS: seq<int> := [0, 1, 2, 3, 4, 0x100, 0x100 + 21, 0x100 + 22, 0x100 + 30, 0x100 + 38]

  // ---------------------------------------------------------------- ReindexStringsCff

  /** The string list of the subset: every string, the font's name prefixed. */
  function SubsetStrings(values: seq<string>, name: string): (r: seq<string>)
    ensures |r| == |values|
  {
    seq(|values|, j requires 0 <= j < |values| => if values[j] != name then values[j] else SUBSET_PREFIX + values[j])
  }

  /** The NewIndex of every string after ReindexStringsCff: its old SID. */
  function SameSids(n: nat): (r: seq<int>)
    ensures |r| == n
  {
    seq(n, j => CFF_STD_STRING_COUNT + j)
  }

  /**
   * ReindexStringsCff: marks every string needed, gives the needed ones
   * NewIndex 391, 392, … in order and returns their values, the font's
   * name prefixed with "Subset-".
   */
  method ReindexStringsCff(values: seq<string>, needed: array<bool>, newIndex: array<int>, name: string) returns (newArr: seq<string>)
    requires needed.Length == |values| && newIndex.Length == |values|
    modifies needed, newIndex
    ensures forall j | 0 <= j < needed.Length :: needed[j]
    ensures newIndex[..] == SameSids(|values|)
    ensures newArr == SubsetStrings(values, name)
  {
    for j := 0 to needed.Length
      invariant forall k | 0 <= k < j :: needed[k]
    {
      needed[j] := true;
    }
    var index := 0;
    for j := 0 to needed.Length
      invariant index == j
      invariant forall k | 0 <= k < needed.Length :: needed[k]
      invariant forall k | 0 <= k < j :: newIndex[k] == CFF_STD_STRING_COUNT + k
    {
      if needed[j] {
        newIndex[j] := CFF_STD_STRING_COUNT + index;
        index := index + 1;
      }
    }
    assert newIndex[..] == SameSids(|values|);
    newArr := [];
    for j := 0 to needed.Length
      invariant forall k | 0 <= k < needed.Length :: needed[k]
      invariant newArr == SubsetStrings(values, name)[..j]
    {
      if needed[j] {
        if values[j] != name {
          newArr := newArr + [values[j]];
        } else {
          newArr := newArr + [SUBSET_PREFIX + values[j]];
        }
      }
      assert SubsetStrings(values, name)[..j + 1] == SubsetStrings(values, name)[..j] + [SubsetStrings(values, name)[j]];
    }
    assert SubsetStrings(values, name)[..needed.Length] == SubsetStrings(values, name);
  }

  /** After ReindexStringsCff a SID names the same string slot as before: renumbering maps every valid SID to itself. */
  lemma RemapSame(sid: int, n: nat)
    ensures RemapSid(sid, SameSids(n)) == if sid < CFF_STD_STRING_COUNT + n then Success(sid) else Failure(ARRAY_INDEX_ERROR)
  {
  }

  /** The SIDs the needed glyphs had, in glyph order. */
  function NeededNames(glyphs: seq<GlyphData>): (r: seq<int>)
    ensures |r| <= |glyphs|
  {
    if glyphs == [] then []
    else
      var init := NeededNames(glyphs[..|glyphs| - 1]);
      if glyphs[|glyphs| - 1].needed then init + [glyphs[|glyphs| - 1].namesIdCFF] else init
  }

  /** Every needed glyph's SID names a standard string or one of the n font strings. */
  predicate NamesIn(glyphs: seq<GlyphData>, n: nat)
  {
    forall i | 0 <= i < |glyphs| :: glyphs[i].needed ==> glyphs[i].namesIdCFF < CFF_STD_STRING_COUNT + n
  }

  /**
   * With the strings renumbered by ReindexStringsCff, WriteCharsetCff
   * writes the needed glyphs' own SIDs, and fails exactly when one of them
   * is past the string list.
   */
  lemma {:induction false} NeededSidsSame(glyphs: seq<GlyphData>, n: nat)
    ensures NeededSids(glyphs, SameSids(n)).Success? == NamesIn(glyphs, n)
    ensures NamesIn(glyphs, n) ==> NeededSids(glyphs, SameSids(n)) == Success(NeededNames(glyphs))
  {
    if glyphs != [] {
      var init := glyphs[..|glyphs| - 1];
      var g := glyphs[|glyphs| - 1];
      NeededSidsSame(init, n);
      RemapSame(g.namesIdCFF, n);
      assert NamesIn(glyphs, n) == (NamesIn(init, n) && (g.needed ==> g.namesIdCFF < CFF_STD_STRING_COUNT + n)) by {
        assert forall i | 0 <= i < |init| :: init[i] == glyphs[i];
      }
    }
  }

  // ---------------------------------------------------------------- SweepDictCFF

  /**
   * The SID SweepDictCFF finds in an operand: an `int`.  As written a SID
   * that ReadObjectCFF returned as a `short` (operand 28, used for SIDs
   * from 1132 on) is rejected like a real number or an array; `corrected`
   * accepts it.
   */
  function SidValue(o: CffObject, corrected: bool): (r: Result<int>)
    ensures r.Success? <==> o.Plain? && (o.t.Int? || (corrected && o.t.Short?))
    ensures r.Success? ==> r.value == o.t.value
    ensures r.Failure? ==> r.error == SID_ERROR
  {
    match o
    case Plain(Int(v)) => Success(v)
    case Plain(Short(v)) => if corrected then Success(v) else Failure(SID_ERROR)
    case _ => Failure(SID_ERROR)
  }

  /** Dictionary.ContainsKey and the position of the key's entry. */
  function KeyIndex(d: seq<(int, CffObject)>, key: int): (r: Option<nat>)
    ensures r.None? <==> key !in Keys(d)
    ensures r.Some? ==> r.value < |d| && d[r.value].0 == key && forall j | 0 <= j < r.value :: d[j].0 != key
  {
    if d == [] then None
    else if d[0].0 == key then Some(0)
    else
      match KeyIndex(d[1..], key)
      case None => assert Keys(d) == {d[0].0} + Keys(d[1..]); None
      case Some(i) => assert d[1..][i] == d[i + 1]; Some(i + 1)
  }

  /**
   * One key of SweepDictCFF: a SID of a font string becomes a reference to
   * that string, which is marked needed; a standard SID stays; a missing
   * key is skipped.
   */
  function SweepKey(d: seq<(int, CffObject)>, marks: set<nat>, key: int, n: nat, corrected: bool): Result<(seq<(int, CffObject)>, set<nat>)>
  {
    match KeyIndex(d, key)
    case None => Success((d, marks))
    case Some(i) =>
      match SidValue(d[i].1, corrected)
      case Failure(e) => Failure(e)
      case Success(sid) =>
        if sid < CFF_STD_STRING_COUNT then Success((d, marks))
        else if sid - CFF_STD_STRING_COUNT < n then
          Success((d[i := (key, StringRef(sid - CFF_STD_STRING_COUNT))], marks + {sid - CFF_STD_STRING_COUNT}))
        else Failure(ARRAY_INDEX_ERROR)
  }

  /** The loop of SweepDictCFF over the keys. */
  function SweepKeys(d: seq<(int, CffObject)>, marks: set<nat>, keys: seq<int>, n: nat, corrected: bool): Result<(seq<(int, CffObject)>, set<nat>)>
    decreases |keys|
  {
    if keys == [] then Success((d, marks))
    else
      match SweepKey(d, marks, keys[0], n, corrected)
      case Failure(e) => Failure(e)
      case Success((d1, m1)) => SweepKeys(d1, m1, keys[1..], n, corrected)
  }

  /** SweepDictCFF on a DICT with n font strings: the swept DICT and the strings marked needed. */
  function SweepDict(d: seq<(int, CffObject)>, n: nat, corrected: bool): Result<(seq<(int, CffObject)>, set<nat>)>
  {
    SweepKeys(d, {}, SID_KEYS, n, corrected)
  }

  /** SweepDictCFF, marking strings in the Needed flags. */
  method SweepDictCff(d: seq<(int, CffObject)>, needed: array<bool>, corrected: bool) returns (r: Result<seq<(int, CffObject)>>)
    modifies needed
    ensures var x := SweepDict(d, needed.Length, corrected);
      r.Success? == x.Success? && (r.Failure? ==> r.error == x.error) &&
      (r.Success? ==> r.value == x.value.0 && forall j | 0 <= j < needed.Length :: needed[j] == (old(needed[j]) || j in x.value.1))
  {
    var dict := d;
    ghost var marks: set<nat> := {};
    ghost var before := needed[..];
    ghost var want := SweepDict(d, needed.Length, corrected);
    var k := 0;
    while k < |SID_KEYS|
      invariant 0 <= k <= |SID_KEYS|
      invariant want == SweepKeys(dict, marks, SID_KEYS[k..], needed.Length, corrected)
      invariant forall j | 0 <= j < needed.Length :: needed[j] == (before[j] || j in marks)
    {
      var key := SID_KEYS[k];
      var step;
      step, marks := SweepKeyCff(dict, needed, key, corrected, before, marks);
      assert SID_KEYS[k..][1..] == SID_KEYS[k + 1..];
      if step.Failure? {
        return Failure(step.error);
      }
      dict := step.value;
      k := k + 1;
    }
    return Success(dict);
  }

  /** The body of SweepDictCFF's loop for one key. */
  method SweepKeyCff(dict: seq<(int, CffObject)>, needed: array<bool>, key: int, corrected: bool, ghost before: seq<bool>, ghost marks: set<nat>)
    returns (r: Result<seq<(int, CffObject)>>, ghost marks1: set<nat>)
    requires |before| == needed.Length && forall j | 0 <= j < needed.Length :: needed[j] == (before[j] || j in marks)
    modifies needed
    ensures var x := SweepKey(dict, marks, key, needed.Length, corrected);
      r.Success? == x.Success? && (r.Failure? ==> r.error == x.error) &&
      (r.Success? ==> r.value == x.value.0 && marks1 == x.value.1 &&
                      forall j | 0 <= j < needed.Length :: needed[j] == (before[j] || j in marks1))
  {
    marks1 := marks;
    var at := KeyIndex(dict, key);
    if at.None? {
      return Success(dict), marks1;
    }
    var sid := SidValue(dict[at.value].1, corrected);
    if sid.Failure? {
      return Failure(sid.error), marks1;
    }
    if sid.value >= CFF_STD_STRING_COUNT {
      if sid.value - CFF_STD_STRING_COUNT >= needed.Length {
        return Failure(ARRAY_INDEX_ERROR), marks1;
      }
      needed[sid.value - CFF_STD_STRING_COUNT] := true;
      marks1 := marks + {sid.value - CFF_STD_STRING_COUNT};
      return Success(dict[at.value := (key, StringRef(sid.value - CFF_STD_STRING_COUNT))]), marks1;
    }
    return Success(dict), marks1;
  }

  // ---------------------------------------------------------------- what the sweep does, entry by entry

  /** What SweepDictCFF leaves for a SID operand: a reference to the font string it names, or the operand itself. */
  function Swept(o: CffObject, corrected: bool): CffObject
  {
    match SidValue(o, corrected)
    case Success(sid) => if sid >= CFF_STD_STRING_COUNT then StringRef(sid - CFF_STD_STRING_COUNT) else o
    case Failure(_) => o
  }

  /** A SID operand SweepDictCFF accepts: an integer naming a standard string or one of the n font strings. */
  predicate SidOk(o: CffObject, n: nat, corrected: bool)
  {
    SidValue(o, corrected).Success? && SidValue(o, corrected).value < CFF_STD_STRING_COUNT + n
  }

  /** No key twice in a list of keys. */
  predicate NoDup(ks: seq<int>)
  {
    forall i, j | 0 <= i < j < |ks| :: ks[i] != ks[j]
  }

  /** The entries whose key is among ks have their SID operand swept. */
  function SweptOn(d: seq<(int, CffObject)>, ks: seq<int>, corrected: bool): (r: seq<(int, CffObject)>)
    ensures |r| == |d|
  {
    seq(|d|, i requires 0 <= i < |d| => if d[i].0 in ks then (d[i].0, Swept(d[i].1, corrected)) else d[i])
  }

  /** Every entry whose key is among ks holds an acceptable SID. */
  predicate OkOn(d: seq<(int, CffObject)>, ks: seq<int>, n: nat, corrected: bool)
  {
    forall i | 0 <= i < |d| :: d[i].0 in ks ==> SidOk(d[i].1, n, corrected)
  }

  /** A key absent from the DICT changes nothing. */
  lemma AbsentKey(d: seq<(int, CffObject)>, k: int, rest: seq<int>, n: nat, corrected: bool)
    requires k !in Keys(d)
    ensures SweptOn(d, [k] + rest, corrected) == SweptOn(d, rest, corrected)
    ensures OkOn(d, [k] + rest, n, corrected) == OkOn(d, rest, n, corrected)
  {
    assert forall i | 0 <= i < |d| :: d[i].0 in Keys(d);
  }

  /** A key whose operand sweeps to itself: the rest of the keys decide. */
  lemma KeptKey(d: seq<(int, CffObject)>, i: nat, k: int, rest: seq<int>, n: nat, corrected: bool)
    requires DistinctKeys(d) && i < |d| && d[i].0 == k && k !in rest
    requires SidOk(d[i].1, n, corrected) && Swept(d[i].1, corrected) == d[i].1
    ensures SweptOn(d, [k] + rest, corrected) == SweptOn(d, rest, corrected)
    ensures OkOn(d, [k] + rest, n, corrected) == OkOn(d, rest, n, corrected)
  {
  }

  /** A key whose operand is swept: the DICT with that entry replaced, swept on the rest of the keys, is the DICT swept on all. */
  lemma SweptKey(d: seq<(int, CffObject)>, i: nat, k: int, rest: seq<int>, n: nat, corrected: bool)
    requires DistinctKeys(d) && i < |d| && d[i].0 == k && k !in rest
    requires SidOk(d[i].1, n, corrected)
    ensures var d1 := d[i := (k, Swept(d[i].1, corrected))];
      DistinctKeys(d1) &&
      SweptOn(d1, rest, corrected) == SweptOn(d, [k] + rest, corrected) &&
      OkOn(d1, rest, n, corrected) == OkOn(d, [k] + rest, n, corrected)
  {
    var d1 := d[i := (k, Swept(d[i].1, corrected))];
    forall j | 0 <= j < |d| && j != i
      ensures d1[j] == d[j] && (d[j].0 in [k] + rest) == (d[j].0 in rest)
    {
    }
  }

  /** A key whose operand is refused: the sweep cannot succeed. */
  lemma RefusedKey(d: seq<(int, CffObject)>, i: nat, k: int, rest: seq<int>, n: nat, corrected: bool)
    requires i < |d| && d[i].0 == k && !SidOk(d[i].1, n, corrected)
    ensures !OkOn(d, [k] + rest, n, corrected)
  {
  }

  /** SweepKeys after a first key that succeeds goes on with the rest. */
  lemma KeysCons(d: seq<(int, CffObject)>, marks: set<nat>, k: int, rest: seq<int>, n: nat, corrected: bool, d1: seq<(int, CffObject)>, m1: set<nat>)
    requires SweepKey(d, marks, k, n, corrected) == Success((d1, m1))
    ensures SweepKeys(d, marks, [k] + rest, n, corrected) == SweepKeys(d1, m1, rest, n, corrected)
  {
    assert ([k] + rest)[1..] == rest;
  }

  /** What one key does, case by case. */
  lemma KeyCases(d: seq<(int, CffObject)>, marks: set<nat>, k: int, n: nat, corrected: bool)
    ensures KeyIndex(d, k).None? ==> SweepKey(d, marks, k, n, corrected) == Success((d, marks))
    ensures KeyIndex(d, k).Some? ==> var i := KeyIndex(d, k).value;
      (!SidOk(d[i].1, n, corrected) ==> SweepKey(d, marks, k, n, corrected).Failure?) &&
      (SidOk(d[i].1, n, corrected) && Swept(d[i].1, corrected) == d[i].1 ==> SweepKey(d, marks, k, n, corrected) == Success((d, marks))) &&
      (SidOk(d[i].1, n, corrected) && Swept(d[i].1, corrected) != d[i].1 ==>
        SweepKey(d, marks, k, n, corrected) == Success((d[i := (k, Swept(d[i].1, corrected))], marks + {SidValue(d[i].1, corrected).value - CFF_STD_STRING_COUNT})))
  {
  }

  /** The keys after the first of a list without repeats: no repeats, and not the first. */
  lemma NoDupTail(ks: seq<int>)
    requires NoDup(ks) && ks != []
    ensures NoDup(ks[1..]) && ks[0] !in ks[1..] && ks == [ks[0]] + ks[1..]
  {
    var rest := ks[1..];
    forall i, j | 0 <= i < j < |rest| ensures rest[i] != rest[j] {
      assert rest[i] == ks[i + 1] && rest[j] == ks[j + 1];
    }
  }

  /** SweepKeys over distinct keys: it succeeds exactly when every entry under those keys holds an acceptable SID, and sweeps exactly those entries. */
  lemma {:induction false} SweepKeysPointwise(d: seq<(int, CffObject)>, marks: set<nat>, ks: seq<int>, n: nat, corrected: bool)
    requires DistinctKeys(d) && NoDup(ks)
    ensures SweepKeys(d, marks, ks, n, corrected).Success? == OkOn(d, ks, n, corrected)
    ensures SweepKeys(d, marks, ks, n, corrected).Success? ==> SweepKeys(d, marks, ks, n, corrected).value.0 == SweptOn(d, ks, corrected)
    decreases |ks|
  {
    if ks == [] {
      assert SweptOn(d, ks, corrected) == d;
    } else {
      var k, rest := ks[0], ks[1..];
      NoDupTail(ks);
      KeyCases(d, marks, k, n, corrected);
      match KeyIndex(d, k)
      case None =>
        AbsentKey(d, k, rest, n, corrected);
        KeysCons(d, marks, k, rest, n, corrected, d, marks);
        SweepKeysPointwise(d, marks, rest, n, corrected);
      case Some(i) =>
        if !SidOk(d[i].1, n, corrected) {
          RefusedKey(d, i, k, rest, n, corrected);
        } else if Swept(d[i].1, corrected) == d[i].1 {
          KeptKey(d, i, k, rest, n, corrected);
          KeysCons(d, marks, k, rest, n, corrected, d, marks);
          SweepKeysPointwise(d, marks, rest, n, corrected);
        } else {
          var d1 := d[i := (k, Swept(d[i].1, corrected))];
          var m1 := marks + {SidValue(d[i].1, corrected).value - CFF_STD_STRING_COUNT};
          SweptKey(d, i, k, rest, n, corrected);
          KeysCons(d, marks, k, rest, n, corrected, d1, m1);
          SweepKeysPointwise(d1, m1, rest, n, corrected);
        }
    }
  }

  /**
   * SweepDictCFF on a DICT as ReadDictCFF returns it (no key twice): it
   * succeeds exactly when every SID operand is an integer naming a standard
   * string or a font string, and then replaces each SID of a font string by
   * a reference to that string, leaving every other entry as it was.
   */
  lemma SweepDictPointwise(d: seq<(int, CffObject)>, n: nat, corrected: bool)
    requires DistinctKeys(d)
    ensures SweepDict(d, n, corrected).Success? == OkOn(d, SID_KEYS, n, corrected)
    ensures SweepDict(d, n, corrected).Success? ==> SweepDict(d, n, corrected).value.0 == SweptOn(d, SID_KEYS, corrected)
  {
    SweepKeysPointwise(d, {}, SID_KEYS, n, corrected);
  }

  /**
   * After ReindexStringsCff a swept SID is written as the SID it was: a
   * reference to font string j is written as its NewIndex 391 + j.
   */
  lemma SweptWritesSid(o: CffObject, n: nat, corrected: bool, s: Out)
    requires SidOk(o, n, corrected)
    ensures RefsIn(Swept(o, corrected), n)
    ensures EmitObject(Swept(o, corrected), SameSids(n), s) == Success(Out(s.bytes + IntCff(o.t.value), s.offsets))
  {
  }

  // ---------------------------------------------------------------- operand 28

  /** WriteIntCFF writes a SID of 1200 with operand 28, and ReadObjectCFF gives it back as a short. */
  lemma ShortSidRead()
    ensures ReadObject(IntCff(1200), 0) == Success((Short(1200), 3))
  {
    IntCffRoundTrip([], 1200, []);
    assert [] + IntCff(1200) + [] == IntCff(1200);
  }

  /** The SID keys after FullName (2). */
  lemma SidKeysSplit() returns (tail: seq<int>)
    ensures SID_KEYS == [0, 1, 2] + tail && 2 !in tail
    ensures ([0, 1, 2] + tail)[1..] == [1, 2] + tail && ([1, 2] + tail)[1..] == [2] + tail && ([2] + tail)[1..] == tail
  {
    tail := SID_KEYS[3..];
    assert SID_KEYS == [0, 1, 2] + tail;
  }

  /**
   * As written, a font with 810 strings whose FullName SID is 1200, read
   * back as a short, makes SweepDictCFF throw.
   */
  lemma ShortSidAsWritten()
    ensures SweepDict([(2, Plain(Short(1200)))], 810, false) == Failure(SID_ERROR)
  {
    var d := [(2, Plain(Short(1200)))];
    KeysOne(d[0]);
    assert KeyIndex(d, 2) == Some(0) && SidValue(d[0].1, false) == Failure(SID_ERROR);
    var tail := SidKeysSplit();
    assert SweepKey(d, {}, 0, 810, false) == Success((d, {}));
    assert SweepKey(d, {}, 1, 810, false) == Success((d, {}));
    assert SweepKey(d, {}, 2, 810, false) == Failure(SID_ERROR);
  }

  /** The corrected sweep turns the same SID into a reference to string 809. */
  lemma ShortSidCorrected()
    ensures SweepDict([(2, Plain(Short(1200)))], 810, true) == Success(([(2, StringRef(809))], {809}))
  {
    var d := [(2, Plain(Short(1200)))];
    var d1 := [(2, StringRef(809))];
    KeysOne(d[0]);
    KeysOne(d1[0]);
    assert KeyIndex(d, 2) == Some(0) && SidValue(d[0].1, true) == Success(1200);
    assert d[0 := (2, StringRef(809))] == d1;
    var tail := SidKeysSplit();
    AbsentKeys(d1, {809}, tail, 810, true);
    assert SweepKey(d, {}, 0, 810, true) == Success((d, {}));
    assert SweepKey(d, {}, 1, 810, true) == Success((d, {}));
    assert {} + {809} == {809};
    assert SweepKey(d, {}, 2, 810, true) == Success((d1, {809}));
    assert SweepKeys(d, {}, [2] + tail, 810, true) == Success((d1, {809}));
    assert SweepKeys(d, {}, [1, 2] + tail, 810, true) == Success((d1, {809}));
  }

  /** The one key of a one-entry DICT. */
  lemma KeysOne(e: (int, CffObject))
    ensures Keys([e]) == {e.0}
  {
    assert [e][0].0 == e.0;
  }

  /** Keys the DICT does not hold leave it and the marks as they are. */
  lemma {:induction false} AbsentKeys(d: seq<(int, CffObject)>, marks: set<nat>, ks: seq<int>, n: nat, corrected: bool)
    requires forall k | k in ks :: k !in Keys(d)
    ensures SweepKeys(d, marks, ks, n, corrected) == Success((d, marks))
    decreases |ks|
  {
    if ks != [] {
      assert ks[0] in ks;
      assert forall k | k in ks[1..] :: k in ks;
      AbsentKeys(d, marks, ks[1..], n, corrected);
    }
  }

}
