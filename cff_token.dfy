/**
 * CFF DICT tokens (section 4 "DICT Data" of Adobe Technical Note #5176, The
 * Compact Font Format Specification): ReadObjectCFF with decodeNibbleCFF,
 * which read one operand or operator, and WriteIntCFF with the operator and
 * real-number branches of WriteObjectCFF, which write one.
 *
 * A real operand is kept as the characters its nibbles spell; turning them
 * into a double (double.Parse) and back (double.ToString) is not part of
 * this model.  Bytes past the end of the font read as 0.
 */
module CffToken {
  import opened BigEndian
  import opened Outcome
  import opened CMapDecode
  import CMapFacts

  const OBJECT_ERROR: string := "error reading CFF object"
  const FLOAT_ERROR: string := "could not read CFF float"
  /** The source keeps reading a real number past the end of the font; the model stops there. */
  const END_ERROR: string := "CFF real number runs past the end of the font"
  /** What `s[i + 1]` throws when an exponent mark is the last character. */
  const INDEX_ERROR: string := "Index was outside the bounds of the array."
  const BAD_NUMBER: string := "Bad number : "

  /**
   * What ReadObjectCFF returns: an operator (a KeyCFF; the two-byte operator
   * 12 b has key 0x100 | b), an integer boxed as `int`, an integer boxed as
   * `short` (operand 28), or a real number as the characters of its nibbles.
   */
  datatype Token = Operator(key: int) | Int(value: int) | Short(value: int) | Real(text: string)

  /** The integer an Int or Short token carries. */
  predicate IsInteger(t: Token) { t.Int? || t.Short? }

  /** The operator keys ReadObjectCFF can return: one-byte operators 0..21 except the escape 12, and 12 b. */
  predicate IsOperatorKey(key: int)
  {
    (0 <= key <= 21 && key != 12) || 0x100 <= key < 0x200
  }

  /** decodeNibbleCFF's three outcomes: characters to append, the end mark 0xF, or an error (0xD). */
  datatype NibbleMeaning = Chars(s: string) | EndMark | Invalid

  /** decodeNibbleCFF: what one nibble (masked with 0xF) means. */
  function DecodeNibble(nibble: int): (r: NibbleMeaning)
    ensures r.Invalid? <==> nibble % 16 == 0xD
    ensures r.EndMark? <==> nibble % 16 == 0xF
  {
    var n := nibble % 16;
    if n <= 9 then Chars([('0' as int + n) as char])
    else if n == 0xA then Chars(".")
    else if n == 0xB then Chars("E")
    else if n == 0xC then Chars("E-")
    else if n == 0xE then Chars("-")
    else if n == 0xF then EndMark
    else Invalid
  }

  /** The real-number loop of ReadObjectCFF from byte q on, with the characters `acc` read so far. */
  function RealFrom(data: seq<byte>, q: nat, acc: string): (r: Result<(Token, nat)>)
    ensures r.Success? ==> r.value.0.Real? && q < r.value.1
    decreases |data| - q
  {
    if q >= |data| then Failure(END_ERROR)
    else
      var n := data[q];
      match DecodeNibble(n / 16)
      case EndMark => Success((Real(acc), q + 1))
      case Invalid => Failure(FLOAT_ERROR)
      case Chars(s) =>
        match DecodeNibble(n)
        case EndMark => Success((Real(acc + s), q + 1))
        case Invalid => Failure(FLOAT_ERROR)
        case Chars(t) => RealFrom(data, q + 1, acc + s + t)
  }

  /**
   * ReadObjectCFF: the token at byte p of the font and the position after
   * it.  Every token read takes at least one byte, and an operator read has
   * a valid key.
   */
  function ReadObject(data: seq<byte>, p: nat): (r: Result<(Token, nat)>)
    ensures r.Success? ==> p < r.value.1
    ensures r.Success? && r.value.0.Operator? ==> IsOperatorKey(r.value.0.key)
    ensures p >= |data| ==> r == Success((Operator(0), p + 1))
    ensures r.Failure? ==> ByteOr0(data, p) == 30 || 22 <= ByteOr0(data, p) <= 27 || ByteOr0(data, p) == 31 || ByteOr0(data, p) == 255
  {
    var b0 := ByteOr0(data, p);
    if b0 == 30 then RealFrom(data, p + 1, "")
    else if b0 <= 21 then
      if b0 == 12 then Success((Operator(0x100 + ByteOr0(data, p + 1)), p + 2))
      else Success((Operator(b0), p + 1))
    else if 32 <= b0 <= 246 then Success((Int(b0 - 139), p + 1))
    else if 247 <= b0 <= 254 then
      var b1 := ByteOr0(data, p + 1);
      if b0 <= 250 then Success((Int((b0 - 247) * 256 + b1 + 108), p + 2))
      else Success((Int(-(b0 - 251) * 256 - b1 - 108), p + 2))
    else if b0 == 28 then Success((Short(ShortAt(data, p + 1)), p + 3))
    else if b0 == 29 then
      Success((Int(ToInt32(ByteOr0(data, p + 1) as int * 0x100_0000 + ByteOr0(data, p + 2) as int * 0x1_0000
                           + ByteOr0(data, p + 3) as int * 0x100 + ByteOr0(data, p + 4))), p + 5))
    else Failure(OBJECT_ERROR)
  }

  /** ReadObjectCFF, with the nibble loop of a real operand. */
  method ReadObjectCff(data: seq<byte>, p: nat) returns (r: Result<(Token, nat)>)
    ensures r == ReadObject(data, p)
  {
    var b0 := ByteOr0(data, p);
    if b0 != 30 {
      return ReadObject(data, p);
    }
    var q := p + 1;
    var acc := "";
    while true
      invariant RealFrom(data, q, acc) == ReadObject(data, p)
      decreases |data| - q
    {
      if q >= |data| {
        return Failure(END_ERROR);
      }
      var n := data[q];
      match DecodeNibble(n / 16)
      case EndMark =>
        return Success((Real(acc), q + 1));
      case Invalid =>
        return Failure(FLOAT_ERROR);
      case Chars(s) =>
        match DecodeNibble(n)
        case EndMark =>
          return Success((Real(acc + s), q + 1));
        case Invalid =>
          return Failure(FLOAT_ERROR);
        case Chars(t) =>
          acc := acc + s + t;
          q := q + 1;
    }
  }

  // ---------------------------------------------------------------- integers

  /** WriteIntCFF: the bytes written for the 32-bit integer v. */
  function IntCff(v: int): (r: seq<byte>)
    ensures 1 <= |r| <= 5
  {
    if -107 <= v <= 107 then [v + 139]
    else if 108 <= v <= 1131 then [(v - 108) / 256 + 247, (v - 108) % 256]
    else if -1131 <= v <= -108 then [(-v - 108) / 256 + 251, (-v - 108) % 256]
    else if -0x8000 <= v <= 0x7FFF then [28] + ShortBytes(v)
    else [29] + IntBytes(v)
  }

  /** WriteIntCFF on an output stream. */
  method WriteIntCff(out: ByteStream, v: int)
    modifies out
    ensures out.bytes == old(out.bytes) + IntCff(v)
  {
    if -107 <= v <= 107 {
      out.WriteByte(v + 139);
    } else if 108 <= v <= 1131 {
      var w := v - 108;
      assert 0 <= w / 256 <= 3;
      out.WriteByte(w / 256 + 247);
      out.WriteByte(w);
      assert out.bytes == old(out.bytes) + [w / 256 + 247, w % 256];
    } else if -1131 <= v <= -108 {
      var w := -v - 108;
      assert 0 <= w / 256 <= 3;
      out.WriteByte(w / 256 + 251);
      out.WriteByte(w);
      assert out.bytes == old(out.bytes) + [w / 256 + 251, w % 256];
    } else if -0x8000 <= v <= 0x7FFF {
      out.WriteByte(28);
      out.WriteShort(v);
      AppendAssoc(old(out.bytes), [28], ShortBytes(v));
    } else {
      out.WriteByte(29);
      out.WriteInt(v);
      AppendAssoc(old(out.bytes), [29], IntBytes(v));
    }
  }

  /** The encoded size: 1 byte for -107..107, 2 for 108..1131 either sign, 3 for other 16-bit values, 5 otherwise. */
  lemma IntCffSize(v: int)
    ensures |IntCff(v)| == (if -107 <= v <= 107 then 1 else if -1131 <= v <= 1131 then 2 else if IsInt16(v) then 3 else 5)
    ensures IntCff(v)[0] == (if -107 <= v <= 107 then v + 139 else if 108 <= v <= 1131 then 247 + (v - 108) / 256
                             else if -1131 <= v <= -108 then 251 + (-v - 108) / 256 else if IsInt16(v) then 28 else 29)
  {
  }

  /** The prefix and suffix around a token do not change how its bytes read. */
  lemma ByteOr0Within(prefix: seq<byte>, w: seq<byte>, rest: seq<byte>, i: nat)
    requires i < |w|
    ensures ByteOr0(prefix + w + rest, |prefix| + i) == w[i]
  {
  }

  /** Two bytes b1 b2 with b1 < 4 read as the 2-byte operand: 256 b1 + b2. */
  lemma TwoByteValue(w: int)
    requires 0 <= w < 1024
    ensures (w / 256) * 256 + w % 256 == w
  {
  }

  /** The bytes of a 29-operand read back as the 32-bit value they were written from. */
  lemma FiveByteValue(v: int)
    requires IsInt32(v)
    ensures ToInt32(ByteAt(v, 3) as int * 0x100_0000 + ByteAt(v, 2) as int * 0x1_0000 + ByteAt(v, 1) as int * 0x100 + ByteAt(v, 0)) == v
  {
    GetIntOfIntBytes([], v);
    assert [] + IntBytes(v) == IntBytes(v);
  }

  /**
   * WriteIntCFF then ReadObjectCFF gives back every 32-bit value; a value
   * written with operand 28 comes back boxed as a short, every other value
   * as an int, and the reader stops right after the written bytes.
   */
  lemma IntCffRoundTrip(prefix: seq<byte>, v: int, rest: seq<byte>)
    requires IsInt32(v)
    ensures ReadObject(prefix + IntCff(v) + rest, |prefix|)
         == Success((if IsInt16(v) && !(-1131 <= v <= 1131) then Short(v) else Int(v), |prefix| + |IntCff(v)|))
  {
    var w := IntCff(v);
    var data := prefix + w + rest;
    var p := |prefix|;
    IntCffSize(v);
    ByteOr0Within(prefix, w, rest, 0);
    if -107 <= v <= 107 {
    } else if 108 <= v <= 1131 {
      ByteOr0Within(prefix, w, rest, 1);
      TwoByteValue(v - 108);
    } else if -1131 <= v <= -108 {
      ByteOr0Within(prefix, w, rest, 1);
      TwoByteValue(-v - 108);
    } else if IsInt16(v) {
      ByteOr0Within(prefix, w, rest, 1);
      ByteOr0Within(prefix, w, rest, 2);
      CMapFacts.ShortOfShortBytes(v);
      ToInt16Unique(v, v);
    } else {
      ByteOr0Within(prefix, w, rest, 1);
      ByteOr0Within(prefix, w, rest, 2);
      ByteOr0Within(prefix, w, rest, 3);
      ByteOr0Within(prefix, w, rest, 4);
      FiveByteValue(v);
    }
  }

  // ---------------------------------------------------------------- operators

  /** The KeyCFF branch of WriteObjectCFF: keys below 0xFF take one byte, the others the escape 12 and their low byte. */
  function KeyBytes(key: int): (r: seq<byte>)
    ensures 1 <= |r| <= 2
  {
    if key < 0xFF then [key % 256] else [12, key % 256]
  }

  /** Writing an operator and reading it back gives the same key, for every key the reader can return. */
  lemma KeyRoundTrip(prefix: seq<byte>, key: int, rest: seq<byte>)
    requires IsOperatorKey(key)
    ensures ReadObject(prefix + KeyBytes(key) + rest, |prefix|) == Success((Operator(key), |prefix| + |KeyBytes(key)|))
  {
    ByteOr0Within(prefix, KeyBytes(key), rest, 0);
    if key >= 0x100 {
      ByteOr0Within(prefix, KeyBytes(key), rest, 1);
    }
  }

  /** Every operator ReadObjectCFF reads is written back by WriteObjectCFF as the bytes it was read from. */
  lemma KeyBytesOfRead(data: seq<byte>, p: nat)
    requires p + 2 <= |data|
    requires ReadObject(data, p).Success? && ReadObject(data, p).value.0.Operator?
    ensures var (t, q) := ReadObject(data, p).value; KeyBytes(t.key) == data[p..q]
  {
  }

  // ---------------------------------------------------------------- reals

  /** The nibbles WriteObjectCFF emits: digits, '.', the two exponent marks and '-' (never 0xD or 0xF). */
  predicate WriterNibble(n: int) { 0 <= n <= 0xC || n == 0xE }

  predicate WriterNibbles(ns: seq<int>) { forall i | 0 <= i < |ns| :: WriterNibble(ns[i]) }

  /** The characters decodeNibbleCFF appends for the writer's nibbles, in order. */
  function Spelled(ns: seq<int>): string
    requires WriterNibbles(ns)
  {
    if ns == [] then "" else DecodeNibble(ns[0]).s + Spelled(ns[1..])
  }

  /** The nibble WriteObjectCFF writes for an exponent mark: as written, 0xB for "E-" and 0xC for "E"; corrected, the other way round. */
  function ExponentNibble(minus: bool, corrected: bool): (r: int)
    ensures WriterNibble(r)
  {
    if minus != corrected then 0xB else 0xC
  }

  /** Prepend one nibble to a successful result. */
  function Cons(n: int, r: Result<seq<int>>): Result<seq<int>>
  {
    if r.Success? then Success([n] + r.value) else r
  }

  /**
   * One character step of WriteObjectCFF's double branch: the nibble for
   * the text at index i and the index of the next step, or the exception
   * (an exponent mark as the last character, or a character the writer
   * does not know).
   */
  function CharNibble(s: string, i: nat, corrected: bool): (r: Result<(int, nat)>)
    requires i < |s|
    ensures r.Success? ==> WriterNibble(r.value.0) && i < r.value.1 <= |s|
  {
    var c := s[i];
    if '0' <= c <= '9' then Success((c as int - '0' as int, i + 1))
    else if c == '-' then Success((0xE, i + 1))
    else if c == '.' then Success((0xA, i + 1))
    else if c == 'E' || c == 'e' then
      if i + 1 >= |s| then Failure(INDEX_ERROR)
      else if s[i + 1] == '-' then Success((ExponentNibble(true, corrected), i + 2))
      else Success((ExponentNibble(false, corrected), i + 1))
    else Failure(BAD_NUMBER + s)
  }

  /** The character loop of WriteObjectCFF's double branch: the nibbles for s from index i on, before the end mark. */
  function NibblesFrom(s: string, i: nat, corrected: bool): (r: Result<seq<int>>)
    ensures r.Success? ==> WriterNibbles(r.value)
    decreases |s| - i
  {
    if i >= |s| then Success([])
    else
      match CharNibble(s, i, corrected)
      case Failure(e) => Failure(e)
      case Success((n, next)) => Cons(n, NibblesFrom(s, next, corrected))
  }

  /** Nibbles two to a byte, high first; an odd last nibble is padded with 0xF. */
  function Packed(ns: seq<int>): (r: seq<byte>)
    requires AllNibbles(ns)
  {
    seq((|ns| + 1) / 2, k requires 0 <= k < (|ns| + 1) / 2 =>
      ns[2 * k] * 16 + (if 2 * k + 1 < |ns| then ns[2 * k + 1] else 0xF))
  }

  /** The bytes of a real operand whose text spells the writer's nibbles ns: 30, the nibbles, the end mark. */
  function RealBytes(ns: seq<int>): (r: seq<byte>)
    requires WriterNibbles(ns)
  {
    [30] + Packed(ns + [0xF])
  }

  /**
   * The double branch of WriteObjectCFF: the bytes for the text s, or the
   * exception it throws; as written (corrected false) with the exponent
   * nibbles swapped, corrected with 0xB for "E" and 0xC for "E-".
   */
  function RealCff(s: string, corrected: bool): (r: Result<seq<byte>>)
  {
    match NibblesFrom(s, 0, corrected)
    case Success(ns) => Success(RealBytes(ns))
    case Failure(e) => Failure(e)
  }

  /** RealCff succeeds exactly when the character loop does. */
  lemma RealCffOf(s: string, corrected: bool)
    ensures NibblesFrom(s, 0, corrected).Success? ==> RealCff(s, corrected) == Success(RealBytes(NibblesFrom(s, 0, corrected).value))
    ensures NibblesFrom(s, 0, corrected).Failure? ==> RealCff(s, corrected) == Failure(NibblesFrom(s, 0, corrected).error)
  {
  }

  /** A high and a low nibble make one byte and come apart again. */
  lemma NibblePair(h: int, l: int)
    requires 0 <= h < 16 && 0 <= l < 16
    ensures (h * 16 + l) / 16 == h && (h * 16 + l) % 16 == l
  {
    DivModUnique(h * 16 + l, 16, h, l);
  }

  /** All of ns are nibbles. */
  predicate AllNibbles(ns: seq<int>) { forall i | 0 <= i < |ns| :: 0 <= ns[i] < 16 }

  /** Appending two nibbles to an even number of nibbles appends one byte. */
  lemma PackedPair(ns: seq<int>, h: int, l: int)
    requires AllNibbles(ns) && |ns| % 2 == 0 && 0 <= h < 16 && 0 <= l < 16
    ensures AllNibbles(ns + [h, l])
    ensures Packed(ns + [h, l]) == Packed(ns) + [h * 16 + l]
  {
    var t := ns + [h, l];
    assert AllNibbles(t);
    assert |Packed(t)| == |Packed(ns)| + 1;
    forall k | 0 <= k < |Packed(t)|
      ensures Packed(t)[k] == (Packed(ns) + [h * 16 + l])[k]
    {
      if k < |Packed(ns)| {
        assert t[2 * k] == ns[2 * k] && t[2 * k + 1] == ns[2 * k + 1];
      } else {
        assert t[2 * k] == h && t[2 * k + 1] == l;
      }
    }
  }

  /** Appending one nibble to an even number of nibbles appends it padded with 0xF. */
  lemma PackedLast(ns: seq<int>, h: int)
    requires AllNibbles(ns) && |ns| % 2 == 0 && 0 <= h < 16
    ensures AllNibbles(ns + [h])
    ensures Packed(ns + [h]) == Packed(ns) + [h * 16 + 0xF]
  {
    var t := ns + [h];
    assert AllNibbles(t);
    assert |Packed(t)| == |Packed(ns)| + 1;
    forall k | 0 <= k < |Packed(t)|
      ensures Packed(t)[k] == (Packed(ns) + [h * 16 + 0xF])[k]
    {
      if k < |Packed(ns)| {
        assert t[2 * k] == ns[2 * k] && t[2 * k + 1] == ns[2 * k + 1];
      } else {
        assert t[2 * k] == h;
      }
    }
  }

  /** The first byte of packed nibbles holds the first two; the rest packs the others. */
  lemma PackedFront(ns: seq<int>)
    requires AllNibbles(ns) && |ns| >= 2
    ensures AllNibbles(ns[2..])
    ensures Packed(ns) == [ns[0] * 16 + ns[1]] + Packed(ns[2..])
  {
    var tail := ns[2..];
    assert AllNibbles(tail);
    assert |Packed(ns)| == 1 + |Packed(tail)|;
    forall k | 0 <= k < |Packed(ns)|
      ensures Packed(ns)[k] == ([ns[0] * 16 + ns[1]] + Packed(tail))[k]
    {
      if k > 0 {
        assert tail[2 * (k - 1)] == ns[2 * k];
        assert 2 * (k - 1) + 1 < |tail| ==> tail[2 * (k - 1) + 1] == ns[2 * k + 1];
      }
    }
  }

  /** One nibble followed by the end mark packs into a single byte. */
  lemma PackedOne(h: int)
    requires 0 <= h < 16
    ensures AllNibbles([h, 0xF])
    ensures Packed([h, 0xF]) == [h * 16 + 0xF]
  {
    var w := Packed([h, 0xF]);
    assert |w| == 1;
    assert w[0] == h * 16 + 0xF;
  }

  /** The end mark alone packs into the byte 0xFF. */
  lemma PackedEnd()
    ensures AllNibbles([0xF])
    ensures Packed([0xF]) == [0xFF]
  {
    var w := Packed([0xF]);
    assert |w| == 1;
    assert w[0] == 0xFF;
  }

  /** A byte of two writer nibbles adds their characters and the real-number loop goes on. */
  lemma RealStep(data: seq<byte>, q: nat, acc: string, h: int, l: int)
    requires q < |data| && WriterNibble(h) && WriterNibble(l) && data[q] == h * 16 + l
    ensures RealFrom(data, q, acc) == RealFrom(data, q + 1, acc + DecodeNibble(h).s + DecodeNibble(l).s)
  {
    NibblePair(h, l);
  }

  /** Packed nibbles at q: the first two characters, then whatever the rest reads as. */
  lemma RealStepTo(data: seq<byte>, q: nat, acc: string, ns: seq<int>, res: Result<(Token, nat)>)
    requires WriterNibbles(ns) && |ns| >= 2
    requires q + |Packed(ns + [0xF])| <= |data|
    requires data[q..q + |Packed(ns + [0xF])|] == Packed(ns + [0xF])
    requires RealFrom(data, q + 1, acc + DecodeNibble(ns[0]).s + DecodeNibble(ns[1]).s) == res
    ensures RealFrom(data, q, acc) == res
  {
    ClosedFront(ns);
    SliceFront(data, q, ns[0] * 16 + ns[1], Packed(ns[2..] + [0xF]));
    RealStep(data, q, acc, ns[0], ns[1]);
  }

  /** A byte whose low nibble is the end mark closes the real number. */
  lemma RealEnd(data: seq<byte>, q: nat, acc: string, h: int)
    requires q < |data| && (WriterNibble(h) || h == 0xF) && data[q] == h * 16 + 0xF
    ensures RealFrom(data, q, acc) == Success((Real(if h == 0xF then acc else acc + DecodeNibble(h).s), q + 1))
  {
    NibblePair(h, 0xF);
  }

  /** Spelled, one nibble at a time from the front. */
  lemma SpelledCons(n: int, ns: seq<int>)
    requires WriterNibble(n) && WriterNibbles(ns)
    ensures WriterNibbles([n] + ns)
    ensures Spelled([n] + ns) == DecodeNibble(n).s + Spelled(ns)
  {
    assert ([n] + ns)[1..] == ns;
  }

  /** The last byte of a real operand: the end mark alone, or one nibble and the end mark. */
  lemma RealFromPackedShort(data: seq<byte>, q: nat, acc: string, ns: seq<int>)
    requires WriterNibbles(ns) && |ns| <= 1
    requires q + |Packed(ns + [0xF])| <= |data|
    requires data[q..q + |Packed(ns + [0xF])|] == Packed(ns + [0xF])
    ensures RealFrom(data, q, acc) == Success((Real(acc + Spelled(ns)), q + |Packed(ns + [0xF])|))
  {
    var h := if ns == [] then 0xF else ns[0];
    ClosedShort(ns);
    SpelledShort(ns);
    SliceFront(data, q, h * 16 + 0xF, []);
    RealEnd(data, q, acc, h);
    if ns == [] {
      assert acc + Spelled(ns) == acc;
    }
  }

  /** At most one nibble before the end mark: one closing byte. */
  lemma ClosedShort(ns: seq<int>)
    requires WriterNibbles(ns) && |ns| <= 1
    ensures Packed(ns + [0xF]) == [(if ns == [] then 0xF else ns[0]) * 16 + 0xF] + []
  {
    if ns == [] {
      assert ns + [0xF] == [0xF];
      PackedEnd();
    } else {
      assert ns + [0xF] == [ns[0], 0xF];
      PackedOne(ns[0]);
    }
  }

  /** At most one nibble: its characters. */
  lemma SpelledShort(ns: seq<int>)
    requires WriterNibbles(ns) && |ns| <= 1
    ensures Spelled(ns) == if ns == [] then "" else DecodeNibble(ns[0]).s
  {
    if ns != [] {
      assert ns == [ns[0]];
      SpelledOne(ns[0]);
    }
  }

  /** One nibble spells what decodeNibbleCFF appends for it. */
  lemma SpelledOne(h: int)
    requires WriterNibble(h)
    ensures WriterNibbles([h]) && Spelled([h]) == DecodeNibble(h).s
  {
    assert [h][1..] == [];
  }

  /** Two nibbles and the rest: the packing splits after them. */
  lemma ClosedFront(ns: seq<int>)
    requires WriterNibbles(ns) && |ns| >= 2
    ensures WriterNibbles(ns[2..])
    ensures Packed(ns + [0xF]) == [ns[0] * 16 + ns[1]] + Packed(ns[2..] + [0xF])
  {
    var tail := ns[2..];
    var t := ns + [0xF];
    assert t[2..] == tail + [0xF];
    assert t[0] == ns[0] && t[1] == ns[1];
    assert WriterNibbles(tail);
    PackedFront(t);
  }

  /** Two nibbles and the rest: the spelling splits after them. */
  lemma SpelledTwo(ns: seq<int>)
    requires WriterNibbles(ns) && |ns| >= 2
    ensures WriterNibbles(ns[2..])
    ensures Spelled(ns) == DecodeNibble(ns[0]).s + DecodeNibble(ns[1]).s + Spelled(ns[2..])
  {
    var tail := ns[2..];
    assert WriterNibbles(tail);
    assert ns[1..][1..] == tail;
  }

  /** A slice that starts with one byte: that byte, then the slice of the rest. */
  lemma SliceFront(data: seq<byte>, q: nat, x: byte, rest: seq<byte>)
    requires q + 1 + |rest| <= |data| && data[q..q + 1 + |rest|] == [x] + rest
    ensures data[q] == x && data[q + 1..q + 1 + |rest|] == rest
  {
    assert data[q..q + 1 + |rest|][0] == x;
    assert data[q + 1..q + 1 + |rest|] == data[q..q + 1 + |rest|][1..];
  }

  /** Reading the packed nibbles of a real operand spells them, then stops after the end mark. */
  lemma {:induction false} RealFromPacked(data: seq<byte>, q: nat, acc: string, ns: seq<int>)
    requires WriterNibbles(ns)
    requires q + |Packed(ns + [0xF])| <= |data|
    requires data[q..q + |Packed(ns + [0xF])|] == Packed(ns + [0xF])
    ensures RealFrom(data, q, acc) == Success((Real(acc + Spelled(ns)), q + |Packed(ns + [0xF])|))
    decreases |ns|
  {
    if |ns| <= 1 {
      RealFromPackedShort(data, q, acc, ns);
    } else {
      var tail := ns[2..];
      var s0, s1 := DecodeNibble(ns[0]).s, DecodeNibble(ns[1]).s;
      PackedTail(data, q, ns);
      var text := acc + s0 + s1 + Spelled(tail);
      assert text == acc + Spelled(ns) by {
        SpelledTwo(ns);
        AppendAssoc(acc + s0, s1, Spelled(tail));
        AppendAssoc(acc, s0, s1 + Spelled(tail));
        AppendAssoc(s0, s1, Spelled(tail));
      }
      var res := Success((Real(acc + Spelled(ns)), q + |Packed(ns + [0xF])|));
      assert RealFrom(data, q + 1, acc + s0 + s1) == res by {
        RealFromPacked(data, q + 1, acc + s0 + s1, tail);
        assert Real(text) == Real(acc + Spelled(ns));
      }
      RealStepTo(data, q, acc, ns, res);
    }
  }

  /** After the first byte of packed nibbles, the rest of them. */
  lemma PackedTail(data: seq<byte>, q: nat, ns: seq<int>)
    requires WriterNibbles(ns) && |ns| >= 2
    requires q + |Packed(ns + [0xF])| <= |data|
    requires data[q..q + |Packed(ns + [0xF])|] == Packed(ns + [0xF])
    ensures WriterNibbles(ns[2..]) && |Packed(ns + [0xF])| == 1 + |Packed(ns[2..] + [0xF])|
    ensures data[q + 1..q + 1 + |Packed(ns[2..] + [0xF])|] == Packed(ns[2..] + [0xF])
  {
    ClosedFront(ns);
    SliceFront(data, q, ns[0] * 16 + ns[1], Packed(ns[2..] + [0xF]));
  }

  /** Writing the nibbles of a real operand and reading them back spells their characters. */
  lemma RealRoundTrip(prefix: seq<byte>, ns: seq<int>, rest: seq<byte>)
    requires WriterNibbles(ns)
    ensures ReadObject(prefix + RealBytes(ns) + rest, |prefix|)
         == Success((Real(Spelled(ns)), |prefix| + |RealBytes(ns)|))
  {
    var data := prefix + RealBytes(ns) + rest;
    var w := Packed(ns + [0xF]);
    ByteOr0Within(prefix, RealBytes(ns), rest, 0);
    assert data[|prefix| + 1..|prefix| + 1 + |w|] == w;
    RealFromPacked(data, |prefix| + 1, "", ns);
    assert "" + Spelled(ns) == Spelled(ns);
    assert |RealBytes(ns)| == 1 + |w|;
  }

  /** The characters of a real number's text that the writer and the reader both know. */
  predicate RealChar(c: char) { '0' <= c <= '9' || c == '.' || c == '-' || c == 'E' }

  /** Text a real operand can be written from and read back as: digits, '.', '-' and 'E', never ending in 'E'. */
  predicate RealText(s: string)
  {
    && (forall i | 0 <= i < |s| :: RealChar(s[i]))
    && (|s| > 0 ==> s[|s| - 1] != 'E')
  }

  /** The corrected writer's first nibble for the text from i on, and the index after the characters it stands for. */
  lemma CorrectedStep(s: string, i: nat) returns (n: int, next: nat)
    requires RealText(s) && i < |s|
    ensures i < next <= |s| && WriterNibble(n)
    ensures NibblesFrom(s, i, true) == Cons(n, NibblesFrom(s, next, true))
    ensures s[i..] == DecodeNibble(n).s + s[next..]
  {
    var c := s[i];
    assert RealChar(c);
    if c == 'E' {
      if s[i + 1] == '-' {
        n, next := 0xC, i + 2;
        assert s[i..] == [s[i], s[i + 1]] + s[next..];
      } else {
        n, next := 0xB, i + 1;
        assert s[i..] == [c] + s[next..];
      }
    } else {
      next := i + 1;
      n := if c == '-' then 0xE else if c == '.' then 0xA else c as int - '0' as int;
      assert s[i..] == [c] + s[next..];
    }
  }

  /** With the exponent nibbles the right way round, the nibbles written for a real text spell that text. */
  lemma {:induction false} CorrectedSpelling(s: string, i: nat)
    requires RealText(s) && i <= |s|
    ensures NibblesFrom(s, i, true).Success? && Spelled(NibblesFrom(s, i, true).value) == s[i..]
    decreases |s| - i
  {
    if i < |s| {
      var n, next := CorrectedStep(s, i);
      CorrectedSpelling(s, next);
      var rest := NibblesFrom(s, next, true).value;
      SpelledCons(n, rest);
    }
  }

  /** The corrected writer followed by ReadObjectCFF reads back exactly the text written. */
  lemma CorrectedRealRoundTrip(prefix: seq<byte>, s: string, rest: seq<byte>)
    requires RealText(s)
    ensures RealCff(s, true).Success?
    ensures var w := RealCff(s, true).value;
      ReadObject(prefix + w + rest, |prefix|) == Success((Real(s), |prefix| + |w|))
  {
    CorrectedSpelling(s, 0);
    assert s[0..] == s;
    RealRoundTrip(prefix, NibblesFrom(s, 0, true).value, rest);
  }

  /** As written, a negative exponent is read back positive and a positive one negative: "1E-5" reads as "1E5", "1E5" as "1E-5". */
  lemma ExponentSwapped()
    ensures RealCff("1E-5", false).Success? && RealCff("1E5", false).Success?
    ensures ReadObject(RealCff("1E-5", false).value, 0) == Success((Real("1E5"), 3))
    ensures ReadObject(RealCff("1E5", false).value, 0) == Success((Real("1E-5"), 3))
  {
    MinusReadsPlain();
    PlainReadsMinus();
  }

  /** As written, "1E-5" is read back as "1E5". */
  lemma MinusReadsPlain()
    ensures RealCff("1E-5", false) == Success(RealBytes([1, 0xB, 5]))
    ensures ReadObject(RealBytes([1, 0xB, 5]), 0) == Success((Real("1E5"), 3))
  {
    MinusExponentNibbles();
    SwappedSpelling();
    assert [] + RealBytes([1, 0xB, 5]) + [] == RealBytes([1, 0xB, 5]);
    RealRoundTrip([], [1, 0xB, 5], []);
  }

  /** As written, "1E5" is read back as "1E-5". */
  lemma PlainReadsMinus()
    ensures RealCff("1E5", false) == Success(RealBytes([1, 0xC, 5]))
    ensures ReadObject(RealBytes([1, 0xC, 5]), 0) == Success((Real("1E-5"), 3))
  {
    PlainExponentNibbles();
    SwappedSpelling();
    assert [] + RealBytes([1, 0xC, 5]) + [] == RealBytes([1, 0xC, 5]);
    RealRoundTrip([], [1, 0xC, 5], []);
  }

  /** As written, "1E-5" becomes the nibbles 1, 0xB, 5. */
  lemma MinusExponentNibbles()
    ensures NibblesFrom("1E-5", 0, false) == Success([1, 0xB, 5])
  {
    var minus := "1E-5";
    assert minus[0] == '1' && minus[1] == 'E' && minus[2] == '-' && minus[3] == '5';
    assert [5] + [] == [5] && [0xB] + [5] == [0xB, 5] && [1] + [0xB, 5] == [1, 0xB, 5];
    assert NibblesFrom(minus, 4, false) == Success([]);
    assert NibblesFrom(minus, 3, false) == Success([5]);
    assert NibblesFrom(minus, 1, false) == Success([0xB, 5]);
  }

  /** As written, "1E5" becomes the nibbles 1, 0xC, 5. */
  lemma PlainExponentNibbles()
    ensures NibblesFrom("1E5", 0, false) == Success([1, 0xC, 5])
  {
    var plain := "1E5";
    assert plain[0] == '1' && plain[1] == 'E' && plain[2] == '5';
    assert [5] + [] == [5] && [0xC] + [5] == [0xC, 5] && [1] + [0xC, 5] == [1, 0xC, 5];
    assert NibblesFrom(plain, 3, false) == Success([]);
    assert NibblesFrom(plain, 2, false) == Success([5]);
    assert NibblesFrom(plain, 1, false) == Success([0xC, 5]);
  }

  /** The reader spells 1, 0xB, 5 as "1E5" and 1, 0xC, 5 as "1E-5". */
  lemma SwappedSpelling()
    ensures WriterNibbles([1, 0xB, 5]) && WriterNibbles([1, 0xC, 5])
    ensures Spelled([1, 0xB, 5]) == "1E5" && Spelled([1, 0xC, 5]) == "1E-5"
  {
    SpelledCons(5, []);
    SpelledCons(0xB, [5]);
    SpelledCons(1, [0xB, 5]);
    SpelledCons(0xC, [5]);
    SpelledCons(1, [0xC, 5]);
    assert [0xB] + [5] == [0xB, 5] && [1] + [0xB, 5] == [1, 0xB, 5];
    assert [0xC] + [5] == [0xC, 5] && [1] + [0xC, 5] == [1, 0xC, 5];
  }

  /** Prepend the nibbles already written to the outcome of the rest of the loop. */
  function Prepend(ns: seq<int>, r: Result<seq<int>>): Result<seq<int>>
  {
    if r.Success? then Success(ns + r.value) else r
  }

  lemma PrependCons(ns: seq<int>, n: int, r: Result<seq<int>>)
    ensures Prepend(ns, Cons(n, r)) == Prepend(ns + [n], r)
  {
    if r.Success? {
      assert ns + ([n] + r.value) == ns + [n] + r.value;
    }
  }

  /** The character loop with the nibbles written so far: where the loop of WriteObjectCFF's double branch ends up from index i on. */
  function NibblesAfter(s: string, i: nat, done: seq<int>, corrected: bool): (r: Result<seq<int>>)
    decreases |s| - i
  {
    if i >= |s| then Success(done)
    else
      match CharNibble(s, i, corrected)
      case Failure(e) => Failure(e)
      case Success((n, next)) => NibblesAfter(s, next, done + [n], corrected)
  }

  /** The loop from index i on, after the nibbles done, gives what the whole loop gives. */
  lemma {:induction false} NibblesAfterFrom(s: string, i: nat, done: seq<int>, corrected: bool)
    ensures NibblesAfter(s, i, done, corrected) == Prepend(done, NibblesFrom(s, i, corrected))
    decreases |s| - i
  {
    if i >= |s| {
      assert done + [] == done;
    } else if CharNibble(s, i, corrected).Success? {
      var (n, next) := CharNibble(s, i, corrected).value;
      NibblesAfterFrom(s, next, done + [n], corrected);
      PrependCons(done, n, NibblesFrom(s, next, corrected));
    }
  }

  /** The byte that closes a real operand: the end mark on its own, or after the last pending nibble. */
  function ClosingByte(first: bool, b: int): byte
    requires 0 <= b < 16
  {
    if first then 0xFF else b * 16 + 0xF
  }

  /** The closing byte completes the packing of the nibbles and the end mark. */
  lemma Closing(paired: seq<int>, first: bool, b: int)
    requires WriterNibbles(paired) && |paired| % 2 == 0 && WriterNibble(b)
    ensures var ns := if first then paired else paired + [b];
      WriterNibbles(ns) && Packed(ns + [0xF]) == Packed(paired) + [ClosingByte(first, b)]
  {
    if first {
      PackedLast(paired, 0xF);
    } else {
      PackedPair(paired, b, 0xF);
      assert paired + [b, 0xF] == paired + [b] + [0xF];
    }
  }

  /**
   * The double branch of WriteObjectCFF on the text s (double.ToString):
   * byte 30, then the nibbles paired high then low, closed by the end mark
   * 0xF; on the exceptions it throws, what was written is left unspecified.
   */
  method WriteRealCff(out: ByteStream, s: string, corrected: bool) returns (r: Result<()>)
    modifies out
    ensures r.Success? <==> RealCff(s, corrected).Success?
    ensures r.Failure? ==> r.error == RealCff(s, corrected).error
    ensures r.Success? ==> out.bytes == old(out.bytes) + RealCff(s, corrected).value
  {
    out.WriteByte(30);
    var first, b;
    ghost var paired;
    r, first, b, paired := WriteNibblePairs(out, s, corrected);
    if r.Failure? {
      RealCffOf(s, corrected);
      return;
    }
    RealWritten(old(out.bytes), s, paired, first, b, corrected);
    out.WriteByte(ClosingByte(first, b));
  }

  /** The closing byte after the paired nibbles completes what RealCff writes. */
  lemma RealWritten(pre: seq<byte>, s: string, paired: seq<int>, first: bool, b: int, corrected: bool)
    requires WriterNibbles(paired) && |paired| % 2 == 0 && WriterNibble(b)
    requires NibblesFrom(s, 0, corrected) == Success(paired + if first then [] else [b])
    ensures RealCff(s, corrected).Success?
    ensures pre + [30] + Packed(paired) + [ClosingByte(first, b)] == pre + RealCff(s, corrected).value
  {
    RealCffOf(s, corrected);
    Closing(paired, first, b);
    if first {
      assert paired + [] == paired;
    }
    AppendAssoc(pre + [30], Packed(paired), [ClosingByte(first, b)]);
    AppendAssoc(pre, [30], Packed(paired) + [ClosingByte(first, b)]);
  }

  /**
   * The character loop of WriteObjectCFF's double branch up to the end of
   * the text: every second nibble completes a byte, and the nibble `b` is
   * still pending when `first` is false.
   */
  method WriteNibblePairs(out: ByteStream, s: string, corrected: bool) returns (r: Result<()>, first: bool, b: int, ghost paired: seq<int>)
    modifies out
    ensures WriterNibbles(paired) && |paired| % 2 == 0 && WriterNibble(b)
    ensures r.Failure? ==> NibblesFrom(s, 0, corrected) == Failure(r.error)
    ensures r.Success? ==> NibblesFrom(s, 0, corrected) == Success(paired + if first then [] else [b])
    ensures r.Success? ==> out.bytes == old(out.bytes) + Packed(paired)
  {
    b := 0;
    var i := 0;
    first := true;
    paired := [];
    ghost var written: seq<byte> := [];
    ghost var whole := NibblesAfter(s, 0, [], corrected);
    assert paired + [] == [];
    assert old(out.bytes) + written == old(out.bytes);
    while i < |s|
      invariant 0 <= i <= |s| && 0 <= b < 16
      invariant WriterNibbles(paired) && |paired| % 2 == 0 && WriterNibble(b)
      invariant NibblesAfter(s, i, paired + if first then [] else [b], corrected) == whole
      invariant written == Packed(paired)
      invariant out.bytes == old(out.bytes) + written
      decreases |s| - i
    {
      var step := CharNibble(s, i, corrected);
      if step.Failure? {
        NibblesAfterFrom(s, 0, [], corrected);
        return Failure(step.error), first, b, paired;
      }
      var n := step.value.0;
      if first {
        b := n;
        assert paired + [] + [n] == paired + [b];
      } else {
        PackedPair(paired, b, n);
        out.WriteByte(b * 16 + n);
        AppendAssoc(old(out.bytes), written, [b * 16 + n]);
        assert paired + [b] + [n] == paired + [b, n] + [];
        paired := paired + [b, n];
        written := written + [b * 16 + n];
      }
      first := !first;
      i := step.value.1;
    }
    ghost var ns := paired + if first then [] else [b];
    assert NibblesAfter(s, i, ns, corrected) == Success(ns);
    NibblesAfterFrom(s, 0, [], corrected);
    assert [] + NibblesFrom(s, 0, corrected).value == NibblesFrom(s, 0, corrected).value;
    r := Success(());
  }
}
