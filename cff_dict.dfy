/**
 * CFF DICT data (section 4 "DICT Data" of Adobe Technical Note #5176):
 * ReadDictCFF gathers operands up to each operator and stores them under
 * that operator's key; WriteDictCff writes each value and then its key,
 * with WriteObjectCFF writing a value of any kind the subsetter keeps in a
 * DICT (a token it read, a renumbered string, a placeholder for an offset
 * not yet known, or an array of those).
 *
 * A Dictionary<object, object> keyed by KeyCFF is kept as its entries in
 * insertion order, which is the order its Keys enumerate as long as
 * nothing is added after a removal (OpenTypeFont never does).
 */
module CffDict {
  import opened BigEndian
  import opened Outcome
  import opened CMapDecode
  import opened CffToken

  // ---------------------------------------------------------------- reading

  /** What ReadDictCFF stores under a key: the one operand, or all of them as an array (also when there are none). */
  datatype Operand = Scalar(t: Token) | Array(ts: seq<Token>)

  /** ReadDictCFF's choice between the single operand and an array. */
  function OperandOf(acc: seq<Token>): Operand
  {
    if |acc| == 1 then Scalar(acc[0]) else Array(acc)
  }

  /** The keys of a dictionary held as entries. */
  function Keys<V>(d: seq<(int, V)>): set<int>
  {
    set i | 0 <= i < |d| :: d[i].0
  }

  /** No key occurs twice. */
  predicate DistinctKeys<V>(d: seq<(int, V)>)
  {
    forall i, j | 0 <= i < j < |d| :: d[i].0 != d[j].0
  }

  /** No operator among the tokens. */
  predicate NoOperators(ts: seq<Token>)
  {
    forall i | 0 <= i < |ts| :: !ts[i].Operator?
  }

  /** The shape of every dictionary ReadDictCFF returns: distinct operator keys, operands only, no one-element array. */
  predicate ReadShape(d: seq<(int, Operand)>)
  {
    DistinctKeys(d) &&
    forall i | 0 <= i < |d| ::
      IsOperatorKey(d[i].0) &&
      match d[i].1
      case Scalar(t) => !t.Operator?
      case Array(ts) => |ts| != 1 && NoOperators(ts)
  }

  /**
   * The inner loop of ReadDictCFF: the operands from byte p on (after those
   * in acc) up to the operator that ends them, that operator's key and the
   * position after it.  A read error ends the dictionary with that error.
   */
  function OperandsFrom(data: seq<byte>, p: nat, acc: seq<Token>): (r: Result<(seq<Token>, int, nat)>)
    ensures r.Success? ==> p < r.value.2 && IsOperatorKey(r.value.1)
    ensures r.Success? && NoOperators(acc) ==> NoOperators(r.value.0)
    decreases |data| - p
  {
    match ReadObject(data, p)
    case Failure(e) => Failure(e)
    case Success((t, q)) =>
      if t.Operator? then Success((acc, t.key, q))
      else OperandsFrom(data, q, acc + [t])
  }

  /**
   * The outer loop of ReadDictCFF from byte p while p < last, adding to the
   * entries read so far; Dictionary.Add fails on a key read twice.  What it
   * returns has the ReadShape of every DICT read, and extends `table`.
   */
  function DictFrom(data: seq<byte>, p: nat, last: int, table: seq<(int, Operand)>): (r: Result<seq<(int, Operand)>>)
    ensures r.Success? ==> |table| <= |r.value| && r.value[..|table|] == table
    ensures r.Success? && ReadShape(table) ==> ReadShape(r.value)
    decreases last - p
  {
    if p >= last then Success(table)
    else
      match OperandsFrom(data, p, [])
      case Failure(e) => Failure(e)
      case Success((acc, key, q)) =>
        if key in Keys(table) then Failure(DUPLICATE_KEY)
        else
          var next := table + [(key, OperandOf(acc))];
          assert next[..|table|] == table;
          DictFrom(data, q, last, next)
  }

  /** ReadDictCFF: the dictionary whose data runs from byte p to `last`. */
  function ReadDict(data: seq<byte>, p: nat, last: int): (r: Result<seq<(int, Operand)>>)
    ensures r.Success? ==> ReadShape(r.value)
  {
    DictFrom(data, p, last, [])
  }

  /** The inner loop of ReadDictCFF: operands up to the next operator. */
  method ReadOperandsCff(data: seq<byte>, p: nat) returns (r: Result<(seq<Token>, int, nat)>)
    ensures r == OperandsFrom(data, p, [])
  {
    var acc: seq<Token> := [];
    var pos := p;
    while true
      invariant OperandsFrom(data, pos, acc) == OperandsFrom(data, p, [])
      decreases |data| - pos
    {
      var read := ReadObjectCff(data, pos);
      if read.Failure? {
        return Failure(read.error);
      }
      var (t, q) := read.value;
      if t.Operator? {
        return Success((acc, t.key, q));
      }
      acc := acc + [t];
      pos := q;
    }
  }

  /** ReadDictCFF: the loop over operators until the position reaches `last`. */
  method ReadDictCff(data: seq<byte>, p: nat, last: int) returns (r: Result<seq<(int, Operand)>>)
    ensures r == ReadDict(data, p, last)
  {
    var table: seq<(int, Operand)> := [];
    var pos := p;
    while pos < last
      invariant DictFrom(data, pos, last, table) == ReadDict(data, p, last)
      decreases last - pos
    {
      var operands := ReadOperandsCff(data, pos);
      if operands.Failure? {
        return Failure(operands.error);
      }
      var (acc, key, q) := operands.value;
      if key in Keys(table) {
        return Failure(DUPLICATE_KEY);
      }
      table := table + [(key, OperandOf(acc))];
      pos := q;
    }
    return Success(table);
  }

  // ---------------------------------------------------------------- writing

  /**
   * What WriteObjectCFF is handed inside a DICT: a token as ReadObjectCFF
   * returned it (a KeyCFF, an int or short, a double), a StringCFF (by its
   * position in the string list, written as its NewIndex), an
   * IntPlaceholderCFF (by a tag naming the placeholder object), or an array
   * of these.
   */
  datatype CffObject = Plain(t: Token) | StringRef(index: nat) | Placeholder(tag: nat) | Objects(items: seq<CffObject>)

  /** Every string an object refers to is one of the n strings. */
  predicate RefsIn(o: CffObject, n: nat)
    decreases o
  {
    match o
    case StringRef(i) => i < n
    case Objects(items) => forall i | 0 <= i < |items| :: RefsIn(items[i], n)
    case _ => true
  }

  /** Every value of a dictionary refers only to the n strings. */
  predicate DictRefsIn(d: seq<(int, CffObject)>, n: nat)
  {
    forall i | 0 <= i < |d| :: RefsIn(d[i].1, n)
  }

  /**
   * An output stream and the Offset each placeholder object holds: the
   * position right after the 29 it was written with, or 0 (the field's
   * initial value) for one not written.
   */
  datatype Out = Out(bytes: seq<byte>, offsets: map<nat, int>)

  /** The Offset field of placeholder `tag`. */
  function OffsetOf(offsets: map<nat, int>, tag: nat): int
  {
    if tag in offsets then offsets[tag] else 0
  }

  /** The bytes at `at` are the four zero bytes a placeholder wrote after its 29. */
  predicate Slot(bytes: seq<byte>, at: int)
  {
    1 <= at && at + 4 <= |bytes| && bytes[at - 1] == 29 && bytes[at..at + 4] == IntBytes(0)
  }

  /** `t` is `s` with bytes appended. */
  predicate Extends(s: Out, t: Out)
  {
    |s.bytes| <= |t.bytes| && t.bytes[..|s.bytes|] == s.bytes
  }

  /** Appending bytes keeps a slot a slot. */
  lemma SlotKept(bytes: seq<byte>, more: seq<byte>, at: int)
    requires Slot(bytes, at)
    ensures Slot(bytes + more, at)
  {
    assert (bytes + more)[at..at + 4] == bytes[at..at + 4];
  }

  /** How many times placeholder `tag` occurs in an object. */
  function TagCount(o: CffObject, tag: nat): nat
    decreases o
  {
    match o
    case Placeholder(t) => if t == tag then 1 else 0
    case Objects(items) => ItemsTagCount(items, tag)
    case _ => 0
  }

  /** How many times placeholder `tag` occurs in a sequence of objects. */
  function ItemsTagCount(items: seq<CffObject>, tag: nat): nat
    decreases items
  {
    if items == [] then 0 else TagCount(items[0], tag) + ItemsTagCount(items[1..], tag)
  }

  /** The values of a dictionary, as the array object WriteDictCff's foreach visits. */
  function Values(d: seq<(int, CffObject)>): (r: CffObject)
    ensures r.Objects? && |r.items| == |d|
    ensures forall i | 0 <= i < |d| :: r.items[i] == d[i].1
  {
    Objects(seq(|d|, i requires 0 <= i < |d| => d[i].1))
  }

  /**
   * From state s to state t, every placeholder occurring in o was recorded
   * at a slot of t, every other placeholder kept the Offset it had, and no
   * recorded placeholder was forgotten.
   */
  ghost predicate Recorded(o: CffObject, s: Out, t: Out)
  {
    && (forall tag | TagCount(o, tag) > 0 :: tag in t.offsets && Slot(t.bytes, t.offsets[tag]))
    && (forall tag | tag in t.offsets && TagCount(o, tag) == 0 :: tag in s.offsets && t.offsets[tag] == s.offsets[tag])
    && (forall tag | tag in s.offsets :: tag in t.offsets)
  }

  /** Writing a and then b records what writing an object with both their placeholders records. */
  lemma RecordedThen(a: CffObject, b: CffObject, c: CffObject, s: Out, t: Out, u: Out)
    requires forall tag :: TagCount(c, tag) == TagCount(a, tag) + TagCount(b, tag)
    ensures Recorded(a, s, t) && Recorded(b, t, u) && Extends(t, u) ==> Recorded(c, s, u)
  {
    if Recorded(a, s, t) && Recorded(b, t, u) && Extends(t, u) {
      assert u.bytes == t.bytes + u.bytes[|t.bytes|..];
      forall tag | TagCount(c, tag) > 0
        ensures tag in u.offsets && Slot(u.bytes, u.offsets[tag])
      {
        if TagCount(b, tag) == 0 {
          assert TagCount(a, tag) > 0;
          assert tag in t.offsets && Slot(t.bytes, t.offsets[tag]);
          SlotKept(t.bytes, u.bytes[|t.bytes|..], t.offsets[tag]);
        }
      }
      forall tag | tag in u.offsets && TagCount(c, tag) == 0
        ensures tag in s.offsets && u.offsets[tag] == s.offsets[tag]
      {
        assert TagCount(a, tag) == 0 && TagCount(b, tag) == 0;
      }
    }
  }

  /** Writing bytes that are no placeholder records nothing. */
  lemma RecordedNone(o: CffObject, s: Out, more: seq<byte>)
    requires forall tag :: TagCount(o, tag) == 0
    ensures Recorded(o, s, Out(s.bytes + more, s.offsets))
  {
  }

  /** The head of an array and the rest of it. */
  lemma ItemsSplit(items: seq<CffObject>)
    requires items != []
    ensures forall tag :: TagCount(Objects(items), tag) == TagCount(items[0], tag) + TagCount(Objects(items[1..]), tag)
  {
  }

  /** The first value of a dictionary and the values of the rest of it. */
  lemma ValuesSplit(d: seq<(int, CffObject)>)
    requires d != []
    ensures forall tag :: TagCount(Values(d), tag) == TagCount(d[0].1, tag) + TagCount(Values(d[1..]), tag)
  {
    assert Values(d).items[1..] == Values(d[1..]).items;
  }

  /** AdjustOffsetObjectCff: adds adj to the Offset of every placeholder in o. */
  function AdjustObject(o: CffObject, adj: int, m: map<nat, int>): map<nat, int>
    decreases o
  {
    match o
    case Placeholder(t) => m[t := OffsetOf(m, t) + adj]
    case Objects(items) => AdjustItems(items, adj, m)
    case _ => m
  }

  /** The foreach over an array's elements in AdjustOffsetObjectCff. */
  function AdjustItems(items: seq<CffObject>, adj: int, m: map<nat, int>): map<nat, int>
    decreases items
  {
    if items == [] then m else AdjustItems(items[1..], adj, AdjustObject(items[0], adj, m))
  }

  /** Adjusting moves each placeholder's Offset by adj once for every time it occurs, and records it if it occurs. */
  lemma {:induction false} AdjustedOffset(o: CffObject, adj: int, m: map<nat, int>, tag: nat)
    ensures OffsetOf(AdjustObject(o, adj, m), tag) == OffsetOf(m, tag) + TagCount(o, tag) * adj
    ensures tag in AdjustObject(o, adj, m) <==> tag in m || TagCount(o, tag) > 0
    decreases o
  {
    if o.Objects? {
      AdjustedItemsOffset(o.items, adj, m, tag);
    }
  }

  /** AdjustedOffset for the elements of an array. */
  lemma {:induction false} AdjustedItemsOffset(items: seq<CffObject>, adj: int, m: map<nat, int>, tag: nat)
    ensures OffsetOf(AdjustItems(items, adj, m), tag) == OffsetOf(m, tag) + ItemsTagCount(items, tag) * adj
    ensures tag in AdjustItems(items, adj, m) <==> tag in m || ItemsTagCount(items, tag) > 0
    decreases items
  {
    if items != [] {
      var m1 := AdjustObject(items[0], adj, m);
      AdjustedOffset(items[0], adj, m, tag);
      AdjustedItemsOffset(items[1..], adj, m1, tag);
      Distribute(TagCount(items[0], tag), ItemsTagCount(items[1..], tag), adj);
    }
  }

  lemma Distribute(a: int, b: int, c: int)
    ensures (a + b) * c == a * c + b * c
  {
  }

  /** The bytes WriteObjectCFF writes for a token, or the error it throws (a real with the corrected exponent nibbles). */
  function TokenBytes(t: Token): Result<seq<byte>>
  {
    match t
    case Operator(key) => Success(KeyBytes(key))
    case Int(v) => Success(IntCff(v))
    case Short(v) => Success(IntCff(v))
    case Real(text) => RealCff(text, true)
  }

  /**
   * WriteObjectCFF on a stream in state s, with `sids` the NewIndex of each
   * string: the state after the object, or the error a real number's text
   * throws.  A placeholder writes 29 and four zero bytes and records the
   * position of those four; the stream only grows, and every placeholder of
   * the object ends up recorded at a slot.
   */
  function EmitObject(o: CffObject, sids: seq<int>, s: Out): (r: Result<Out>)
    requires RefsIn(o, |sids|)
    ensures r.Success? ==> Extends(s, r.value)
    decreases o
  {
    match o
    case Plain(t) =>
      (match TokenBytes(t)
       case Failure(e) => Failure(e)
       case Success(w) => Success(Out(s.bytes + w, s.offsets)))
    case StringRef(i) => Success(Out(s.bytes + IntCff(sids[i]), s.offsets))
    case Placeholder(tag) => Success(Out(s.bytes + [29] + IntBytes(0), s.offsets[tag := |s.bytes| + 1]))
    case Objects(items) => EmitItems(items, sids, s)
  }

  /** The foreach over an array's elements in WriteObjectCFF. */
  function EmitItems(items: seq<CffObject>, sids: seq<int>, s: Out): (r: Result<Out>)
    requires forall i | 0 <= i < |items| :: RefsIn(items[i], |sids|)
    ensures r.Success? ==> Extends(s, r.value)
    decreases items
  {
    if items == [] then Success(s)
    else
      match EmitObject(items[0], sids, s)
      case Failure(e) => Failure(e)
      case Success(s1) => EmitItems(items[1..], sids, s1)
  }

  /** WriteDictCff: each value, then its key, in the dictionary's order. */
  function EmitDict(d: seq<(int, CffObject)>, sids: seq<int>, s: Out): (r: Result<Out>)
    requires DictRefsIn(d, |sids|)
    ensures r.Success? ==> Extends(s, r.value)
    decreases |d|
  {
    if d == [] then Success(s)
    else
      match EmitObject(d[0].1, sids, s)
      case Failure(e) => Failure(e)
      case Success(s1) => EmitDict(d[1..], sids, Out(s1.bytes + KeyBytes(d[0].0), s1.offsets))
  }

  /** Writing an object records a slot for each of its placeholders and keeps every other Offset. */
  lemma {:induction false} ObjectRecorded(o: CffObject, sids: seq<int>, s: Out)
    requires RefsIn(o, |sids|)
    ensures EmitObject(o, sids, s).Success? ==> Recorded(o, s, EmitObject(o, sids, s).value)
    decreases o
  {
    match o
    case Plain(t) =>
      if TokenBytes(t).Success? {
        RecordedNone(o, s, TokenBytes(t).value);
      }
    case StringRef(i) =>
      RecordedNone(o, s, IntCff(sids[i]));
    case Placeholder(tag) =>
      var bytes := s.bytes + [29] + IntBytes(0);
      assert bytes == s.bytes + ([29] + IntBytes(0));
      assert bytes[|s.bytes| + 1..|s.bytes| + 5] == IntBytes(0);
    case Objects(items) =>
      ItemsRecorded(items, sids, s);
  }

  /** Writing an array's elements records what writing the array records. */
  lemma {:induction false} ItemsRecorded(items: seq<CffObject>, sids: seq<int>, s: Out)
    requires forall i | 0 <= i < |items| :: RefsIn(items[i], |sids|)
    ensures EmitItems(items, sids, s).Success? ==> Recorded(Objects(items), s, EmitItems(items, sids, s).value)
    decreases items
  {
    if items == [] {
      RecordedNone(Objects(items), s, []);
      assert Out(s.bytes + [], s.offsets) == s;
    } else if EmitObject(items[0], sids, s).Success? {
      var s1 := EmitObject(items[0], sids, s).value;
      var r := EmitItems(items[1..], sids, s1);
      assert EmitItems(items, sids, s) == r;
      if r.Success? {
        ObjectRecorded(items[0], sids, s);
        ItemsRecorded(items[1..], sids, s1);
        ItemsSplit(items);
        RecordedThen(items[0], Objects(items[1..]), Objects(items), s, s1, r.value);
      }
    }
  }

  /** Writing a dictionary records what writing its values records: the keys hold no placeholder. */
  lemma {:induction false} DictRecorded(d: seq<(int, CffObject)>, sids: seq<int>, s: Out)
    requires DictRefsIn(d, |sids|)
    ensures EmitDict(d, sids, s).Success? ==> Recorded(Values(d), s, EmitDict(d, sids, s).value)
    decreases |d|
  {
    if d == [] {
      RecordedNone(Values(d), s, []);
      assert Out(s.bytes + [], s.offsets) == s;
    } else if EmitObject(d[0].1, sids, s).Success? {
      var s1 := EmitObject(d[0].1, sids, s).value;
      var s2 := Out(s1.bytes + KeyBytes(d[0].0), s1.offsets);
      var r := EmitDict(d[1..], sids, s2);
      assert EmitDict(d, sids, s) == r;
      if r.Success? {
        var u := r.value;
        ObjectRecorded(d[0].1, sids, s);
        DictRecorded(d[1..], sids, s2);
        assert Recorded(Values(d[1..]), s1, u) by {
          RecordedNone(Plain(Operator(d[0].0)), s1, KeyBytes(d[0].0));
          RecordedThen(Plain(Operator(d[0].0)), Values(d[1..]), Values(d[1..]), s1, s2, u);
        }
        assert Extends(s1, u) by {
          assert u.bytes[..|s1.bytes|] == u.bytes[..|s2.bytes|][..|s1.bytes|];
        }
        ValuesSplit(d);
        RecordedThen(d[0].1, Values(d[1..]), Values(d), s, s1, u);
      }
    }
  }

  /** The KeyCFF branch of WriteObjectCFF. */
  method WriteKeyCff(out: ByteStream, key: int)
    modifies out
    ensures out.bytes == old(out.bytes) + KeyBytes(key)
  {
    if key < 0xFF {
      out.WriteByte(key);
    } else {
      out.WriteByte(12);
      out.WriteByte(key);
    }
  }

  /** WriteObjectCFF. */
  method WriteObjectCff(out: ByteStream, o: CffObject, sids: seq<int>, offsets: map<nat, int>) returns (r: Result<map<nat, int>>)
    requires RefsIn(o, |sids|)
    modifies out
    ensures var e := EmitObject(o, sids, Out(old(out.bytes), offsets));
      r.Success? == e.Success? && (r.Success? ==> out.bytes == e.value.bytes && r.value == e.value.offsets)
    ensures r.Failure? ==> r.error == EmitObject(o, sids, Out(old(out.bytes), offsets)).error
    decreases o
  {
    match o
    case Plain(t) =>
      match t {
        case Operator(key) =>
          WriteKeyCff(out, key);
          r := Success(offsets);
        case Int(v) =>
          WriteIntCff(out, v);
          r := Success(offsets);
        case Short(v) =>
          WriteIntCff(out, v);
          r := Success(offsets);
        case Real(text) =>
          var w := WriteRealCff(out, text, true);
          if w.Failure? {
            return Failure(w.error);
          }
          r := Success(offsets);
      }
    case StringRef(i) =>
      WriteIntCff(out, sids[i]);
      r := Success(offsets);
    case Placeholder(tag) =>
      out.WriteByte(29);
      var at := |out.bytes|;
      out.WriteInt(0);
      r := Success(offsets[tag := at]);
    case Objects(items) =>
      var i := 0;
      var current := offsets;
      while i < |items|
        invariant 0 <= i <= |items|
        invariant EmitItems(items[i..], sids, Out(out.bytes, current)) == EmitObject(o, sids, Out(old(out.bytes), offsets))
      {
        assert items[i..][1..] == items[i + 1..];
        var step := WriteObjectCff(out, items[i], sids, current);
        if step.Failure? {
          return Failure(step.error);
        }
        current := step.value;
        i := i + 1;
      }
      r := Success(current);
  }

  /** WriteDictCff: the foreach over the keys, writing each value and then the key. */
  method WriteDictCff(out: ByteStream, d: seq<(int, CffObject)>, sids: seq<int>, offsets: map<nat, int>) returns (r: Result<map<nat, int>>)
    requires DictRefsIn(d, |sids|)
    modifies out
    ensures var e := EmitDict(d, sids, Out(old(out.bytes), offsets));
      r.Success? == e.Success? && (r.Success? ==> out.bytes == e.value.bytes && r.value == e.value.offsets)
    ensures r.Failure? ==> r.error == EmitDict(d, sids, Out(old(out.bytes), offsets)).error
  {
    var i := 0;
    var current := offsets;
    while i < |d|
      invariant 0 <= i <= |d|
      invariant EmitDict(d[i..], sids, Out(out.bytes, current)) == EmitDict(d, sids, Out(old(out.bytes), offsets))
    {
      assert d[i..][0] == d[i] && d[i..][1..] == d[i + 1..];
      var step := WriteObjectCff(out, d[i].1, sids, current);
      if step.Failure? {
        return Failure(step.error);
      }
      current := step.value;
      WriteKeyCff(out, d[i].0);
      i := i + 1;
    }
    r := Success(current);
  }

  // ---------------------------------------------------------------- round trip

  /** The token ReadObjectCFF gives back for the bytes WriteIntCFF wrote for v: a short exactly when operand 28 was used. */
  function Reread(v: int): Token
  {
    if IsInt16(v) && !(-1131 <= v <= 1131) then Short(v) else Int(v)
  }

  /** Integer tokens holding 32-bit values, as every integer ReadObjectCFF returns. */
  predicate IntegerTokens(ts: seq<Token>)
  {
    forall i | 0 <= i < |ts| :: IsInteger(ts[i]) && IsInt32(ts[i].value)
  }

  /** An operand of integers only. */
  predicate IntegerOperand(op: Operand)
  {
    match op
    case Scalar(t) => IsInteger(t) && IsInt32(t.value)
    case Array(ts) => IntegerTokens(ts)
  }

  /** A dictionary as ReadDictCFF returns it whose operands are all integers. */
  predicate IntegerDict(d: seq<(int, Operand)>)
  {
    ReadShape(d) && forall i | 0 <= i < |d| :: IntegerOperand(d[i].1)
  }

  /** The tokens read back after writing integer tokens. */
  function RereadTokens(ts: seq<Token>): (r: seq<Token>)
    requires IntegerTokens(ts)
    ensures |r| == |ts|
  {
    seq(|ts|, i requires 0 <= i < |ts| => Reread(ts[i].value))
  }

  /** The operand read back after writing an integer operand. */
  function RereadOperand(op: Operand): Operand
    requires IntegerOperand(op)
  {
    match op
    case Scalar(t) => Scalar(Reread(t.value))
    case Array(ts) => Array(RereadTokens(ts))
  }

  /** The dictionary read back after writing an integer dictionary. */
  function RereadDict(d: seq<(int, Operand)>): (r: seq<(int, Operand)>)
    requires forall i | 0 <= i < |d| :: IntegerOperand(d[i].1)
    ensures |r| == |d|
  {
    seq(|d|, i requires 0 <= i < |d| => (d[i].0, RereadOperand(d[i].1)))
  }

  /** The value BuildCFF hands WriteObjectCFF for an operand it read: the token itself, or the object[] of the tokens. */
  function ObjectOf(op: Operand): CffObject
  {
    match op
    case Scalar(t) => Plain(t)
    case Array(ts) => Objects(seq(|ts|, i requires 0 <= i < |ts| => Plain(ts[i])))
  }

  /** The dictionary of operands read, as BuildCFF copies it for writing. */
  function DictObjects(d: seq<(int, Operand)>): (r: seq<(int, CffObject)>)
    ensures |r| == |d| && DictRefsIn(r, 0)
  {
    seq(|d|, i requires 0 <= i < |d| => (d[i].0, ObjectOf(d[i].1)))
  }

  /** Reference layout: integer tokens one after the other, each as WriteIntCFF writes it. */
  function IntsBytes(ts: seq<Token>): seq<byte>
    requires IntegerTokens(ts)
  {
    if ts == [] then [] else IntCff(ts[0].value) + IntsBytes(ts[1..])
  }

  /** Reference layout of an integer operand. */
  function OperandBytes(op: Operand): seq<byte>
    requires IntegerOperand(op)
  {
    match op
    case Scalar(t) => IntCff(t.value)
    case Array(ts) => IntsBytes(ts)
  }

  /** Reference layout of an integer dictionary: each entry's operands and then its operator. */
  function EntriesBytes(d: seq<(int, Operand)>): seq<byte>
    requires forall i | 0 <= i < |d| :: IntegerOperand(d[i].1)
  {
    if d == [] then [] else OperandBytes(d[0].1) + KeyBytes(d[0].0) + EntriesBytes(d[1..])
  }

  /** Writing integer tokens appends their reference layout and records nothing. */
  lemma {:induction false} EmitInts(ts: seq<Token>, sids: seq<int>, s: Out)
    requires IntegerTokens(ts)
    ensures EmitItems(seq(|ts|, i requires 0 <= i < |ts| => Plain(ts[i])), sids, s) == Success(Out(s.bytes + IntsBytes(ts), s.offsets))
    decreases |ts|
  {
    var items := seq(|ts|, i requires 0 <= i < |ts| => Plain(ts[i]));
    if ts != [] {
      var tail := ts[1..];
      assert IntegerTokens(tail);
      assert items[1..] == seq(|tail|, i requires 0 <= i < |tail| => Plain(tail[i]));
      var s1 := Out(s.bytes + IntCff(ts[0].value), s.offsets);
      assert EmitObject(items[0], sids, s) == Success(s1);
      EmitInts(tail, sids, s1);
      AppendAssoc(s.bytes, IntCff(ts[0].value), IntsBytes(tail));
    } else {
      assert s.bytes + IntsBytes(ts) == s.bytes;
    }
  }

  /** Writing an integer operand appends its reference layout and records nothing. */
  lemma EmitOperand(op: Operand, sids: seq<int>, s: Out)
    requires IntegerOperand(op)
    ensures EmitObject(ObjectOf(op), sids, s) == Success(Out(s.bytes + OperandBytes(op), s.offsets))
  {
    if op.Array? {
      EmitInts(op.ts, sids, s);
    }
  }

  /** WriteDictCff's first step: the first value, its key, then the other entries. */
  lemma EmitDictStep(d: seq<(int, CffObject)>, sids: seq<int>, s: Out, s1: Out)
    requires DictRefsIn(d, |sids|) && d != []
    requires EmitObject(d[0].1, sids, s) == Success(s1)
    ensures DictRefsIn(d[1..], |sids|)
    ensures EmitDict(d, sids, s) == EmitDict(d[1..], sids, Out(s1.bytes + KeyBytes(d[0].0), s1.offsets))
  {
    assert DictRefsIn(d[1..], |sids|) by {
      forall i | 0 <= i < |d[1..]| ensures RefsIn(d[1..][i].1, |sids|) {
        assert d[1..][i] == d[i + 1];
      }
    }
  }

  /** The first entry of a copied dictionary, and the copy of the others. */
  lemma DictObjectsFront(d: seq<(int, Operand)>)
    requires d != []
    ensures DictObjects(d)[0] == (d[0].0, ObjectOf(d[0].1))
    ensures DictObjects(d)[1..] == DictObjects(d[1..])
  {
  }

  /** The reference layout of a dictionary: the first entry, then the others. */
  lemma EntriesFront(d: seq<(int, Operand)>, pre: seq<byte>)
    requires d != [] && forall i | 0 <= i < |d| :: IntegerOperand(d[i].1)
    ensures forall i | 0 <= i < |d[1..]| :: IntegerOperand(d[1..][i].1)
    ensures pre + OperandBytes(d[0].1) + KeyBytes(d[0].0) + EntriesBytes(d[1..]) == pre + EntriesBytes(d)
  {
    assert forall i | 0 <= i < |d[1..]| :: d[1..][i] == d[i + 1];
    var a, b, c := OperandBytes(d[0].1), KeyBytes(d[0].0), EntriesBytes(d[1..]);
    assert EntriesBytes(d) == a + b + c;
    assert pre + a + b + c == pre + (a + b + c);
  }

  /** WriteDictCff on an integer dictionary appends its reference layout and records nothing. */
  lemma {:induction false} EmitEntries(d: seq<(int, Operand)>, sids: seq<int>, s: Out)
    requires forall i | 0 <= i < |d| :: IntegerOperand(d[i].1)
    ensures EmitDict(DictObjects(d), sids, s) == Success(Out(s.bytes + EntriesBytes(d), s.offsets))
    decreases |d|
  {
    if d != [] {
      var objs := DictObjects(d);
      DictObjectsFront(d);
      EmitOperand(d[0].1, sids, s);
      var s1 := Out(s.bytes + OperandBytes(d[0].1), s.offsets);
      EmitDictStep(objs, sids, s, s1);
      var s2 := Out(s1.bytes + KeyBytes(d[0].0), s.offsets);
      EntriesFront(d, s.bytes);
      EmitEntries(d[1..], sids, s2);
    } else {
      assert s.bytes + EntriesBytes(d) == s.bytes;
    }
  }

  /** The bytes w sit at position p of data. */
  predicate At(data: seq<byte>, p: nat, w: seq<byte>)
  {
    p + |w| <= |data| && data[p..p + |w|] == w
  }

  /** Bytes placed after a prefix sit right after it. */
  lemma Placed(prefix: seq<byte>, w: seq<byte>, rest: seq<byte>)
    ensures At(prefix + w + rest, |prefix|, w) && |prefix + w| == |prefix| + |w|
    ensures prefix + w + rest == (prefix + w) + rest
  {
    assert (prefix + w + rest)[|prefix|..|prefix| + |w|] == w;
  }

  /** Bytes a + b at p are a at p and b right after. */
  lemma AtSplit(data: seq<byte>, p: nat, a: seq<byte>, b: seq<byte>)
    requires At(data, p, a + b)
    ensures At(data, p, a) && At(data, p + |a|, b)
  {
    assert data[p..p + |a|] == data[p..p + |a + b|][..|a|];
    assert data[p + |a|..p + |a| + |b|] == data[p..p + |a + b|][|a|..];
  }

  /** An integer written at p reads back as Reread of it. */
  lemma IntAt(data: seq<byte>, p: nat, v: int)
    requires IsInt32(v) && At(data, p, IntCff(v))
    ensures ReadObject(data, p) == Success((Reread(v), p + |IntCff(v)|))
  {
    var w := IntCff(v);
    assert data == data[..p] + w + data[p + |w|..];
    IntCffRoundTrip(data[..p], v, data[p + |w|..]);
  }

  /** An operator written at p reads back as itself. */
  lemma KeyAt(data: seq<byte>, p: nat, key: int)
    requires IsOperatorKey(key) && At(data, p, KeyBytes(key))
    ensures ReadObject(data, p) == Success((Operator(key), p + |KeyBytes(key)|))
  {
    var w := KeyBytes(key);
    assert data == data[..p] + w + data[p + |w|..];
    KeyRoundTrip(data[..p], key, data[p + |w|..]);
  }

  /** An operand token read at p joins the operands gathered so far. */
  lemma OperandStep(data: seq<byte>, p: nat, acc: seq<Token>, t: Token, q: nat)
    requires ReadObject(data, p) == Success((t, q)) && !t.Operator?
    ensures OperandsFrom(data, p, acc) == OperandsFrom(data, q, acc + [t])
  {
  }

  /** An operator read at p ends the operands. */
  lemma OperandsEnd(data: seq<byte>, p: nat, acc: seq<Token>, key: int, q: nat)
    requires ReadObject(data, p) == Success((Operator(key), q))
    ensures OperandsFrom(data, p, acc) == Success((acc, key, q))
  {
  }

  /** The first integer of a run and the rest of the run with the operator after it. */
  lemma IntsFront(data: seq<byte>, p: nat, ts: seq<Token>, key: int)
    requires IntegerTokens(ts) && ts != []
    requires At(data, p, IntsBytes(ts) + KeyBytes(key))
    ensures IntegerTokens(ts[1..])
    ensures ReadObject(data, p) == Success((Reread(ts[0].value), p + |IntCff(ts[0].value)|))
    ensures At(data, p + |IntCff(ts[0].value)|, IntsBytes(ts[1..]) + KeyBytes(key))
    ensures |IntsBytes(ts)| == |IntCff(ts[0].value)| + |IntsBytes(ts[1..])|
  {
    IntsUnfold(ts);
    var v := ts[0].value;
    AppendAssoc(IntCff(v), IntsBytes(ts[1..]), KeyBytes(key));
    IntThen(data, p, v, IntsBytes(ts[1..]) + KeyBytes(key));
  }

  /** The bytes of a run are those of its first integer, then those of the rest. */
  lemma IntsUnfold(ts: seq<Token>)
    requires IntegerTokens(ts) && ts != []
    ensures IntegerTokens(ts[1..]) && IsInt32(ts[0].value)
    ensures IntsBytes(ts) == IntCff(ts[0].value) + IntsBytes(ts[1..])
  {
    assert IntegerTokens(ts[1..]);
  }

  /** An integer written at p, then more bytes: the integer reads back and the rest follows it. */
  lemma IntThen(data: seq<byte>, p: nat, v: int, rest: seq<byte>)
    requires IsInt32(v) && At(data, p, IntCff(v) + rest)
    ensures ReadObject(data, p) == Success((Reread(v), p + |IntCff(v)|))
    ensures At(data, p + |IntCff(v)|, rest)
  {
    AtSplit(data, p, IntCff(v), rest);
    IntAt(data, p, v);
  }

  /** Rereading a run is rereading its first token, then the rest. */
  lemma RereadFront(acc: seq<Token>, ts: seq<Token>)
    requires IntegerTokens(ts) && ts != []
    ensures IntegerTokens(ts[1..])
    ensures acc + RereadTokens(ts) == (acc + [Reread(ts[0].value)]) + RereadTokens(ts[1..])
  {
    assert IntegerTokens(ts[1..]);
    assert RereadTokens(ts) == [Reread(ts[0].value)] + RereadTokens(ts[1..]);
  }

  /** Integer tokens and then an operator, ending at `end`, read back as the reread tokens and that operator. */
  lemma {:induction false} OperandsAt(data: seq<byte>, p: nat, acc: seq<Token>, ts: seq<Token>, key: int, end: nat)
    requires IntegerTokens(ts) && IsOperatorKey(key)
    requires At(data, p, IntsBytes(ts) + KeyBytes(key)) && end == p + |IntsBytes(ts)| + |KeyBytes(key)|
    ensures OperandsFrom(data, p, acc) == Success((acc + RereadTokens(ts), key, end))
    decreases |ts|
  {
    if ts == [] {
      assert IntsBytes(ts) + KeyBytes(key) == KeyBytes(key);
      KeyAt(data, p, key);
      OperandsEnd(data, p, acc, key, end);
      assert acc + RereadTokens(ts) == acc;
    } else {
      var t := Reread(ts[0].value);
      var q := p + |IntCff(ts[0].value)|;
      IntsFront(data, p, ts, key);
      OperandStep(data, p, acc, t, q);
      var acc' := acc + [t];
      OperandsAt(data, q, acc', ts[1..], key, end);
      RereadFront(acc, ts);
    }
  }

  /** An integer operand and its operator read back as the reread operand under that key. */
  lemma EntryAt(data: seq<byte>, p: nat, op: Operand, key: int)
    requires IntegerOperand(op) && IsOperatorKey(key) && !(op.Array? && |op.ts| == 1)
    requires At(data, p, OperandBytes(op) + KeyBytes(key))
    ensures OperandsFrom(data, p, []) == Success((RereadTokens(OperandTokens(op)), key, p + |OperandBytes(op)| + |KeyBytes(key)|))
    ensures OperandOf(RereadTokens(OperandTokens(op))) == RereadOperand(op)
  {
    assert IntsBytes(OperandTokens(op)) == OperandBytes(op) by {
      if op.Scalar? {
        assert IntsBytes(OperandTokens(op)) == IntCff(op.t.value) + IntsBytes([]);
      }
    }
    assert [] + RereadTokens(OperandTokens(op)) == RereadTokens(OperandTokens(op));
    OperandsAt(data, p, [], OperandTokens(op), key, p + |OperandBytes(op)| + |KeyBytes(key)|);
  }

  /** The tokens of an operand. */
  function OperandTokens(op: Operand): (r: seq<Token>)
    ensures IntegerOperand(op) ==> IntegerTokens(r)
  {
    match op
    case Scalar(t) => [t]
    case Array(ts) => ts
  }

  /** An entry read at p joins the table, unless its key is already there. */
  lemma DictStep(data: seq<byte>, p: nat, last: int, table: seq<(int, Operand)>, acc: seq<Token>, key: int, q: nat)
    requires p < last && OperandsFrom(data, p, []) == Success((acc, key, q)) && key !in Keys(table)
    ensures DictFrom(data, p, last, table) == DictFrom(data, q, last, table + [(key, OperandOf(acc))])
  {
  }

  /** The first entry's bytes at p, then the other entries' bytes. */
  lemma EntriesHead(data: seq<byte>, p: nat, d: seq<(int, Operand)>)
    requires d != [] && forall i | 0 <= i < |d| :: IntegerOperand(d[i].1)
    requires At(data, p, EntriesBytes(d))
    ensures forall i | 0 <= i < |d[1..]| :: IntegerOperand(d[1..][i].1)
    ensures At(data, p, OperandBytes(d[0].1) + KeyBytes(d[0].0))
    ensures At(data, p + |OperandBytes(d[0].1) + KeyBytes(d[0].0)|, EntriesBytes(d[1..]))
    ensures |EntriesBytes(d)| == |OperandBytes(d[0].1) + KeyBytes(d[0].0)| + |EntriesBytes(d[1..])|
  {
    assert forall i | 0 <= i < |d[1..]| :: d[1..][i] == d[i + 1];
    var w := OperandBytes(d[0].1) + KeyBytes(d[0].0);
    assert EntriesBytes(d) == w + EntriesBytes(d[1..]);
    AtSplit(data, p, w, EntriesBytes(d[1..]));
  }

  /** Rereading a dictionary is rereading its first entry, then the others. */
  lemma RereadDictFront(table: seq<(int, Operand)>, d: seq<(int, Operand)>)
    requires d != [] && forall i | 0 <= i < |d| :: IntegerOperand(d[i].1)
    ensures forall i | 0 <= i < |d[1..]| :: IntegerOperand(d[1..][i].1)
    ensures table + RereadDict(d) == (table + [(d[0].0, RereadOperand(d[0].1))]) + RereadDict(d[1..])
  {
    assert forall i | 0 <= i < |d[1..]| :: d[1..][i] == d[i + 1];
    assert RereadDict(d) == [(d[0].0, RereadOperand(d[0].1))] + RereadDict(d[1..]);
  }

  /** The first entry of a dictionary of the read shape: a valid key, and not a one-element array. */
  lemma ShapeHead(d: seq<(int, Operand)>)
    requires ReadShape(d) && d != []
    ensures IsOperatorKey(d[0].0) && !(d[0].1.Array? && |d[0].1.ts| == 1) && d[0].0 in Keys(d)
  {
  }

  /** The reference layout of an integer dictionary at p, up to `last` right after it, reads back as the reread dictionary. */
  lemma {:induction false} EntriesAt(data: seq<byte>, p: nat, last: int, d: seq<(int, Operand)>, table: seq<(int, Operand)>)
    requires ReadShape(d) && forall i | 0 <= i < |d| :: IntegerOperand(d[i].1)
    requires Keys(d) !! Keys(table)
    requires At(data, p, EntriesBytes(d)) && last == p + |EntriesBytes(d)|
    ensures DictFrom(data, p, last, table) == Success(table + RereadDict(d))
    decreases |d|
  {
    if d == [] {
      assert table + RereadDict(d) == table;
    } else {
      var key, op := d[0].0, d[0].1;
      ShapeHead(d);
      EntriesHead(data, p, d);
      var q := p + |OperandBytes(op)| + |KeyBytes(key)|;
      assert q == p + |OperandBytes(op) + KeyBytes(key)|;
      EntryAt(data, p, op, key);
      var acc := RereadTokens(OperandTokens(op));
      assert key !in Keys(table);
      assert p < q <= last;
      DictStep(data, p, last, table, acc, key, q);
      var next := table + [(key, RereadOperand(op))];
      ShapeTail(d, table, next);
      EntriesAt(data, q, last, d[1..], next);
      RereadDictFront(table, d);
    }
  }

  /** Dropping the first entry keeps the shape; its key joins the table without meeting the rest. */
  lemma ShapeTail(d: seq<(int, Operand)>, table: seq<(int, Operand)>, next: seq<(int, Operand)>)
    requires ReadShape(d) && d != [] && Keys(d) !! Keys(table)
    requires forall i | 0 <= i < |d| :: IntegerOperand(d[i].1)
    requires next == table + [(d[0].0, RereadOperand(d[0].1))]
    ensures ReadShape(d[1..]) && Keys(d[1..]) !! Keys(next)
  {
    var tail := d[1..];
    forall k | k in Keys(tail) ensures k !in Keys(next) {
      var j :| 0 <= j < |tail| && tail[j].0 == k;
      assert d[j + 1].0 == k;
      assert k in Keys(d);
      assert k != d[0].0;
    }
  }

  /**
   * WriteDictCff then ReadDictCFF: a dictionary of integer operands as
   * ReadDictCFF returns it, written and read back from where it starts up
   * to where it ends, gives the same keys in the same order with the same
   * values (each boxed as a short exactly when it was written with operand
   * 28), whatever follows it.
   */
  lemma DictRoundTrip(d: seq<(int, Operand)>, sids: seq<int>, prefix: seq<byte>, offsets: map<nat, int>, rest: seq<byte>)
    requires IntegerDict(d)
    ensures EmitDict(DictObjects(d), sids, Out(prefix, offsets)).Success?
    ensures var written := EmitDict(DictObjects(d), sids, Out(prefix, offsets)).value.bytes;
      ReadDict(written + rest, |prefix|, |written|) == Success(RereadDict(d))
  {
    EntriesReadBack(d, prefix, rest);
    EmitEntries(d, sids, Out(prefix, offsets));
  }

  /** The reference layout of a dictionary reads back as the dictionary with its operands reread. */
  lemma EntriesReadBack(d: seq<(int, Operand)>, prefix: seq<byte>, rest: seq<byte>)
    requires IntegerDict(d)
    ensures DictFrom(prefix + EntriesBytes(d) + rest, |prefix|, |prefix + EntriesBytes(d)|, []) == Success(RereadDict(d))
  {
    var w := EntriesBytes(d);
    Placed(prefix, w, rest);
    assert [] + RereadDict(d) == RereadDict(d);
    EntriesAt(prefix + w + rest, |prefix|, |prefix + w|, d, []);
  }
}
