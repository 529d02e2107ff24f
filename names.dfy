/**
 * The 'name' table of the subset: OpenTypeFont.BuildNames and its helpers
 * IsUnicodeEntry, DecodeUnicode, EncodeUnicode, DetectStringLength and
 * GetFontID.  BuildNames decides which name records the subset keeps,
 * prefixes the family and full names with "Subset-", replaces the unique
 * font identifier, and lays the kept records out with each one pointing
 * at its string in the storage that follows them (OpenType specification,
 * table 'name', format 0).
 *
 * Strings are C# strings: sequences of UTF-16 code units.
 */
module Names {
  import opened BigEndian
  import opened Outcome
  import Play
  import Tables
  import Writer
  import Checksum
  import Loca

  type CodeUnit = Play.CodeUnit

  /** The message of Stream.Read asked for more bytes than the buffer holds. */
  const ARGUMENT_ERROR: string := "Offset and length were out of bounds for the array or count is greater than the number of elements from index to the end of the source collection."

  /** PlatformId.Unicode and PlatformId.Microsoft. */
  const UNICODE_PLATFORM: int := 0
  const MICROSOFT_PLATFORM: int := 3

  /** "Subset-", the prefix of the renamed family and full names. */
  const SUBSET_PREFIX: seq<CodeUnit> := [0x53, 0x75, 0x62, 0x73, 0x65, 0x74, 0x2D]
  /** "Subset:", the start of the unique font identifier. */
  const FONT_ID_PREFIX: seq<CodeUnit> := [0x53, 0x75, 0x62, 0x73, 0x65, 0x74, 0x3A]

  /**
   * NameEntry: one record of the 'name' table as ReadNames found it (ids as
   * C# shorts, Length as a signed short, Offset from the start of the
   * font) and what BuildNames decides for it.
   */
  datatype NameEntry = NameEntry(
    platformId: int,
    encodingId: int,
    languageId: int,
    nameId: int,
    length: int,
    offset: int,
    needed: bool,
    newContent: Option<seq<byte>>,
    newRelativeOffset: int)

  // ---------------------------------------------------------------- IsUnicodeEntry

  /**
   * IsUnicodeEntry: a Unicode-platform record, or a Microsoft record in
   * the Unicode BMP (1) or full repertoire (10) encoding whose language
   * is English.  `LanguageId & 0x3FF` of a C# short is its value modulo
   * 0x400, which Dafny's % computes for negative ids too.
   */
  predicate IsUnicodeEntry(e: NameEntry)
  {
    e.platformId == UNICODE_PLATFORM
    || (e.platformId == MICROSOFT_PLATFORM && (e.encodingId == 1 || e.encodingId == 10)
        && e.languageId % 0x400 == 9)
  }

  /**
   * A Microsoft language id is a primary language in its low ten bits and
   * a sublanguage above them: a Microsoft Unicode record counts as Unicode
   * exactly when its primary language is English (9), whatever the
   * sublanguage, negative ones included.
   */
  lemma EnglishRecords(e: NameEntry, sublanguage: int, primary: int)
    requires e.platformId == MICROSOFT_PLATFORM && (e.encodingId == 1 || e.encodingId == 10)
    requires 0 <= primary < 0x400 && e.languageId == sublanguage * 0x400 + primary
    ensures IsUnicodeEntry(e) <==> primary == 9
  {
    assert e.languageId % 0x400 == primary;
  }

  /** Records of the Macintosh platform, or of Microsoft encodings other than 1 and 10, are never Unicode. */
  lemma OtherRecords(e: NameEntry)
    requires e.platformId == 1 || (e.platformId == MICROSOFT_PLATFORM && e.encodingId != 1 && e.encodingId != 10)
    ensures !IsUnicodeEntry(e)
  {
  }

  // ---------------------------------------------------------------- UTF-16 big-endian

  /** One UTF-16 code unit from its big-endian bytes. */
  function Unit(hi: byte, lo: byte): CodeUnit
  {
    hi as int * 0x100 + lo as int
  }

  /** The first n big-endian code units of b. */
  function Units(b: seq<byte>, n: nat): seq<CodeUnit>
    requires 2 * n <= |b|
  {
    seq<CodeUnit>(n, i requires 0 <= i < n => Unit(b[2 * i], b[2 * i + 1]))
  }

  /** The big-endian bytes of the code units of s. */
  function Encoded(s: seq<CodeUnit>): (r: seq<byte>)
    ensures |r| == 2 * |s|
  {
    seq<byte>(2 * |s|, i requires 0 <= i < 2 * |s| => if i % 2 == 0 then s[i / 2] / 0x100 else s[i / 2] % 0x100)
  }

  /** The two bytes Encoded gives unit i. */
  lemma EncodedAt(s: seq<CodeUnit>, i: nat)
    requires i < |s|
    ensures Encoded(s)[2 * i] == s[i] / 0x100 && Encoded(s)[2 * i + 1] == s[i] % 0x100
  {
    assert (2 * i) / 2 == i && (2 * i) % 2 == 0;
    assert (2 * i + 1) / 2 == i && (2 * i + 1) % 2 == 1;
  }

  /** Decoding what was encoded gives the string back. */
  lemma UnicodeRoundTrip(s: seq<CodeUnit>)
    ensures Units(Encoded(s), |s|) == s
  {
    forall i | 0 <= i < |s|
      ensures Units(Encoded(s), |s|)[i] == s[i]
    {
      EncodedAt(s, i);
    }
  }

  /** Encoding what was decoded gives the bytes back (a trailing odd byte is what decoding drops). */
  lemma UnicodeBytesRoundTrip(b: seq<byte>, n: nat)
    requires 2 * n <= |b|
    ensures Encoded(Units(b, n)) == b[..2 * n]
  {
    var u := Units(b, n);
    forall j | 0 <= j < 2 * n
      ensures Encoded(u)[j] == b[j]
    {
      var i := j / 2;
      EncodedAt(u, i);
      assert u[i] == b[2 * i] as int * 0x100 + b[2 * i + 1] as int;
      assert j == 2 * i || j == 2 * i + 1;
    }
  }

  /**
   * DecodeUnicode "by hand": length / 2 code units, each from two bytes,
   * big-endian.  The UnicodeEncoding path the source tries first gives the
   * same units whenever it does not throw; it throws on unpaired
   * surrogates and a trailing odd byte, and the source then falls back to
   * this loop.  Every caller passes offset 0.
   */
  method DecodeUnicode(unicode: seq<byte>, length: int) returns (s: seq<CodeUnit>)
    requires 0 <= length && length / 2 * 2 <= |unicode|
    ensures s == Units(unicode, length / 2)
  {
    var buf := new CodeUnit[length / 2];
    var i := 0;
    while i < buf.Length
      invariant 0 <= i <= buf.Length
      invariant forall k | 0 <= k < i :: buf[k] == Unit(unicode[2 * k], unicode[2 * k + 1])
    {
      buf[i] := Unit(unicode[2 * i], unicode[2 * i + 1]);
      i := i + 1;
    }
    s := buf[..];
  }

  /**
   * EncodeUnicode "by hand": each code unit as its high byte (c >> 8) and
   * its low byte ((byte)c).  The UnicodeEncoding path gives the same bytes
   * whenever it does not throw.
   */
  method EncodeUnicode(str: seq<CodeUnit>) returns (r: seq<byte>)
    ensures r == Encoded(str)
  {
    var buf := new byte[|str| * 2];
    var i := 0;
    while i < |str|
      invariant 0 <= i <= |str|
      invariant forall k | 0 <= k < i :: buf[2 * k] == str[k] / 0x100 && buf[2 * k + 1] == str[k] % 0x100
    {
      buf[2 * i] := str[i] / 0x100;
      buf[2 * i + 1] := str[i] % 0x100;
      i := i + 1;
    }
    forall j | 0 <= j < 2 * |str|
      ensures buf[j] == Encoded(str)[j]
    {
      var k := j / 2;
      EncodedAt(str, k);
      assert j == 2 * k || j == 2 * k + 1;
    }
    r := buf[..];
  }

  // ---------------------------------------------------------------- ISO-8859-1

  /** Encoding.GetString for ISO-8859-1: each byte is the character of the same code. */
  function Latin1Chars(b: seq<byte>): (r: seq<CodeUnit>)
    ensures |r| == |b|
  {
    seq<CodeUnit>(|b|, i requires 0 <= i < |b| => b[i] as int)
  }

  /** Encoding.GetBytes for ISO-8859-1: characters above 255 become '?'. */
  function Latin1Bytes(s: seq<CodeUnit>): (r: seq<byte>)
    ensures |r| == |s|
  {
    seq<byte>(|s|, i requires 0 <= i < |s| => Tables.Latin1(s[i]))
  }

  /** A prefixed Latin-1 name encodes to the prefix's bytes followed by the name's own bytes. */
  lemma Latin1Prefixed(prefix: seq<CodeUnit>, b: seq<byte>)
    ensures Latin1Bytes(prefix + Latin1Chars(b)) == Latin1Bytes(prefix) + b
  {
    var r := Latin1Bytes(prefix + Latin1Chars(b));
    forall i | |prefix| <= i < |r|
      ensures r[i] == b[i - |prefix|]
    {
    }
    assert r[..|prefix|] == Latin1Bytes(prefix);
    assert r == r[..|prefix|] + r[|prefix|..];
  }

  /**
   * The index of the first NUL of b, or |b| when there is none: where
   * DetectStringLength stops.
   */
  function FirstZero(b: seq<byte>): (r: nat)
    ensures r <= |b| && (r < |b| ==> b[r] == 0)
    ensures forall k | 0 <= k < r :: b[k] != 0
  {
    if b == [] || b[0] == 0 then 0 else 1 + FirstZero(b[1..])
  }

  /** Zeros appended after b do not move its first NUL when there is one, and become it otherwise. */
  lemma FirstZeroPadded(b: seq<byte>, n: nat)
    ensures FirstZero(b + Checksum.Zeros(n)) == FirstZero(b)
  {
    var p := b + Checksum.Zeros(n);
    var z := FirstZero(b);
    if z < |b| {
      assert p[z] == b[z];
    } else if n > 0 {
      assert p[|b|] == 0;
    } else {
      assert p == b;
    }
    FirstZeroUnique(p, FirstZero(p), z);
  }

  /** Two positions both first NULs of b are the same. */
  lemma FirstZeroUnique(b: seq<byte>, x: nat, y: nat)
    requires x <= |b| && (x < |b| ==> b[x] == 0) && forall k | 0 <= k < x :: b[k] != 0
    requires y <= |b| && (y < |b| ==> b[y] == 0) && forall k | 0 <= k < y :: b[k] != 0
    ensures x == y
  {
  }

  /**
   * DetectStringLength: the buffer decoded as ISO-8859-1, one character
   * per byte, counted up to the first '\0'.
   */
  method DetectStringLength(buffer: seq<byte>) returns (len: nat)
    ensures len == FirstZero(buffer)
  {
    len := 0;
    while len < |buffer|
      invariant len <= |buffer|
      invariant forall k | 0 <= k < len :: buffer[k] != 0
    {
      if buffer[len] == 0 {
        FirstZeroUnique(buffer, len, FirstZero(buffer));
        return;
      }
      len := len + 1;
    }
    FirstZeroUnique(buffer, len, FirstZero(buffer));
  }

  // ---------------------------------------------------------------- GetFontID

  /** The upper-case hexadecimal digit of d. */
  function HexDigit(d: int): CodeUnit
    requires 0 <= d < 16
  {
    if d < 10 then 0x30 + d else 0x41 + d - 10
  }

  /** `{0:X}`: n in upper-case hexadecimal, without leading zeros. */
  function Hex(n: nat): (r: seq<CodeUnit>)
    ensures |r| >= 1
  {
    if n < 16 then [HexDigit(n)] else Hex(n / 16) + [HexDigit(n % 16)]
  }

  /** The value of a hexadecimal digit, or -1 for any other character. */
  function DigitValue(c: CodeUnit): int
  {
    if 0x30 <= c <= 0x39 then c - 0x30 else if 0x41 <= c <= 0x46 then c - 0x41 + 10 else -1
  }

  /** The number a string of hexadecimal digits spells. */
  function HexValue(s: seq<CodeUnit>): int
  {
    if s == [] then 0 else HexValue(s[..|s| - 1]) * 16 + DigitValue(s[|s| - 1])
  }

  /** Hex is read back as the number it was made from, and starts with a non-zero digit unless n is 0. */
  lemma {:induction false} HexRoundTrip(n: nat)
    ensures HexValue(Hex(n)) == n
    ensures n > 0 ==> Hex(n)[0] != 0x30
    ensures forall k | 0 <= k < |Hex(n)| :: Hex(n)[k] < 0x80
  {
    if n >= 16 {
      HexRoundTrip(n / 16);
      var h := Hex(n / 16) + [HexDigit(n % 16)];
      assert h[..|h| - 1] == Hex(n / 16);
    }
  }

  /**
   * GetFontID: "Subset:" and the clock's ticks in hexadecimal.  The clock
   * is a parameter, and the source computes the identifier once per font
   * and keeps it; BuildNames is given that identifier.
   */
  function GetFontID(ticks: nat): (r: seq<CodeUnit>)
    ensures |r| > |FONT_ID_PREFIX| && r[..|FONT_ID_PREFIX|] == FONT_ID_PREFIX && HexValue(r[|FONT_ID_PREFIX|..]) == ticks
  {
    HexRoundTrip(ticks);
    assert (FONT_ID_PREFIX + Hex(ticks))[|FONT_ID_PREFIX|..] == Hex(ticks);
    FONT_ID_PREFIX + Hex(ticks)
  }

  /** The identifier is plain ASCII, so its ISO-8859-1 bytes decode back to it. */
  lemma FontIdLatin1(ticks: nat)
    ensures Latin1Chars(Latin1Bytes(GetFontID(ticks))) == GetFontID(ticks)
  {
    HexRoundTrip(ticks);
    var id := GetFontID(ticks);
    assert id == FONT_ID_PREFIX + Hex(ticks);
    forall k | 0 <= k < |id|
      ensures id[k] < 0x100
    {
      if k >= |FONT_ID_PREFIX| {
        assert id[k] == Hex(ticks)[k - |FONT_ID_PREFIX|];
      }
    }
    Latin1Exact(id);
  }

  /** Characters below 256 survive ISO-8859-1 encoding and decoding. */
  lemma Latin1Exact(s: seq<CodeUnit>)
    requires forall k | 0 <= k < |s| :: s[k] < 0x100
    ensures Latin1Chars(Latin1Bytes(s)) == s
  {
  }

  // ---------------------------------------------------------------- the records BuildNames keeps

  /** Copyright, subfamily, trademark and manufacturer: kept as they are. */
  predicate KeptAsIs(nameId: int)
  {
    nameId == 0 || nameId == 2 || nameId == 7 || nameId == 8
  }

  /** Family, full name, PostScript name, preferred family and preferred full name: renamed. */
  predicate Renames(nameId: int)
  {
    nameId == 1 || nameId == 4 || nameId == 16 || nameId == 17 || nameId == 6
  }

  /** The unique font identifier: replaced. */
  const UNIQUE_ID: int := 3

  /** Every record BuildNames marks needed. */
  predicate Kept(nameId: int)
  {
    KeptAsIs(nameId) || Renames(nameId) || nameId == UNIQUE_ID
  }

  /**
   * The buffer BuildNames reads a name into, as written: `new byte[Offset]`
   * (the name's offset in the font, not its length), a seek to Offset and
   * a read of Length bytes into it.  The read throws when Length exceeds
   * the buffer.
   */
  function NameBufferAsWritten(font: seq<byte>, e: NameEntry): Result<seq<byte>>
  {
    if e.offset < 0 then Failure(Tables.OVERFLOW)
    else if e.length < 0 then Failure(Tables.ARGUMENT_OUT_OF_RANGE)
    else if e.length > e.offset then Failure(ARGUMENT_ERROR)
    else Success(Loca.TableBytes(font, e.offset, e.length) + Checksum.Zeros(e.offset - e.length))
  }

  /** The buffer with the size evidently intended: `new byte[Length]`, then the seek and the read. */
  function NameBuffer(font: seq<byte>, e: NameEntry): (r: Result<seq<byte>>)
    ensures r.Success? ==> |r.value| == e.length
  {
    Tables.Fresh(font, e.offset, e.length)
  }

  /**
   * The new content of a renamed record: "Subset-" and the old name, in
   * UTF-16 for Unicode records and in ISO-8859-1, up to the first NUL,
   * for the others.
   */
  function Renamed(e: NameEntry, buffer: seq<byte>): seq<byte>
    requires 0 <= e.length <= |buffer|
  {
    if IsUnicodeEntry(e) then Encoded(SUBSET_PREFIX + Units(buffer, e.length / 2))
    else Latin1Bytes(SUBSET_PREFIX + Latin1Chars(buffer[..FirstZero(buffer)]))
  }

  /** A renamed Unicode record decodes to "Subset-" followed by the old name. */
  lemma RenamedUnicode(e: NameEntry, buffer: seq<byte>)
    requires 0 <= e.length <= |buffer| && IsUnicodeEntry(e)
    ensures var c := Renamed(e, buffer);
      |c| == 2 * (|SUBSET_PREFIX| + e.length / 2) &&
      Units(c, |c| / 2) == SUBSET_PREFIX + Units(buffer, e.length / 2)
  {
    UnicodeRoundTrip(SUBSET_PREFIX + Units(buffer, e.length / 2));
  }

  /** A renamed ISO-8859-1 record is the bytes of "Subset-" followed by the old name up to its first NUL. */
  lemma RenamedLatin1(e: NameEntry, buffer: seq<byte>)
    requires 0 <= e.length <= |buffer| && !IsUnicodeEntry(e)
    ensures Renamed(e, buffer) == Latin1Bytes(SUBSET_PREFIX) + buffer[..FirstZero(buffer)]
  {
    Latin1Prefixed(SUBSET_PREFIX, buffer[..FirstZero(buffer)]);
  }

  /** Where the buffer as written can be read at all, it gives the same new name as the intended one. */
  lemma NameBufferAgrees(font: seq<byte>, e: NameEntry)
    requires NameBufferAsWritten(font, e).Success?
    ensures NameBuffer(font, e).Success?
    ensures Renamed(e, NameBufferAsWritten(font, e).value) == Renamed(e, NameBuffer(font, e).value)
  {
    var t := Loca.TableBytes(font, e.offset, e.length);
    var w := t + Checksum.Zeros(e.offset - e.length);
    FirstZeroPadded(t, e.offset - e.length);
    assert w[..FirstZero(w)] == t[..FirstZero(t)];
    assert Units(w, e.length / 2) == Units(t, e.length / 2);
  }

  /** A name longer than its offset in the font: the buffer as written cannot hold it, the intended one can. */
  lemma NameBufferTooSmall(font: seq<byte>)
    ensures NameBufferAsWritten(font, NameEntry(3, 1, 0x409, 1, 6, 4, false, None, 0)).Failure?
    ensures NameBuffer(font, NameEntry(3, 1, 0x409, 1, 6, 4, false, None, 0)).Success?
  {
  }

  /**
   * The switch of BuildNames for one record: kept records are marked
   * needed, renamed ones also get their new content read from the font,
   * the unique identifier gets the font's identifier, and the others are
   * left as they are.  Only the read of a renamed record can fail.
   */
  function Marked(e: NameEntry, font: seq<byte>, fontId: seq<CodeUnit>): Result<NameEntry>
  {
    if KeptAsIs(e.nameId) then Success(e.(needed := true))
    else if Renames(e.nameId) then
      var buffer := NameBuffer(font, e);
      if buffer.Failure? then Failure(buffer.error)
      else Success(e.(needed := true, newContent := Some(Renamed(e, buffer.value))))
    else if e.nameId == UNIQUE_ID then
      Success(e.(needed := true, newContent := Some(if IsUnicodeEntry(e) then Encoded(fontId) else Latin1Bytes(fontId))))
    else Success(e)
  }

  /**
   * What the switch does to a record: it is needed afterwards exactly when
   * it was or its name id is kept, only Needed and NewContent change, a
   * record of any other id is left alone, renamed records and the unique
   * identifier get new content, and only a renamed record whose read fails
   * makes BuildNames fail.
   */
  lemma MarkedKeeps(e: NameEntry, font: seq<byte>, fontId: seq<CodeUnit>)
    ensures var r := Marked(e, font, fontId);
      (r.Success? ==> r.value.needed == (e.needed || Kept(e.nameId))) &&
      (r.Success? ==> r.value == e.(needed := r.value.needed, newContent := r.value.newContent)) &&
      (r.Success? && !Kept(e.nameId) ==> r.value == e) &&
      (r.Success? && (Renames(e.nameId) || e.nameId == UNIQUE_ID) ==> r.value.newContent.Some?) &&
      (r.Failure? <==> Renames(e.nameId) && NameBuffer(font, e).Failure?)
  {
  }

  /** Marked over every record, in order; the first failure is the outcome. */
  function MarkedAll(es: seq<NameEntry>, font: seq<byte>, fontId: seq<CodeUnit>): (r: Result<seq<NameEntry>>)
    ensures r.Success? ==> |r.value| == |es|
  {
    if es == [] then Success([])
    else
      var before := MarkedAll(es[..|es| - 1], font, fontId);
      if before.Failure? then before
      else
        var last := Marked(es[|es| - 1], font, fontId);
        if last.Failure? then Failure(last.error) else Success(before.value + [last.value])
  }

  /** After marking, record k is needed exactly when it was or its name id is one BuildNames keeps. */
  lemma {:induction false} MarkedAllKeeps(es: seq<NameEntry>, font: seq<byte>, fontId: seq<CodeUnit>, k: nat)
    requires MarkedAll(es, font, fontId).Success? && k < |es|
    ensures var m := MarkedAll(es, font, fontId).value[k];
      m.needed == (es[k].needed || Kept(es[k].nameId)) && m.nameId == es[k].nameId &&
      m.offset == es[k].offset && m.length == es[k].length
  {
    if k < |es| - 1 {
      MarkedAllKeeps(es[..|es| - 1], font, fontId, k);
    } else {
      MarkedKeeps(es[k], font, fontId);
    }
  }

  // ---------------------------------------------------------------- layout

  /** The length BuildNames gives a needed record: its new content's, or its own. */
  function Len(e: NameEntry): int
  {
    if e.newContent.Some? then |e.newContent.value| else e.length
  }

  /** The offset after the needed records of ms, from the start of the string storage. */
  function StorageSpan(ms: seq<NameEntry>): int
  {
    if ms == [] then 0
    else StorageSpan(ms[..|ms| - 1]) + (if ms[|ms| - 1].needed then Len(ms[|ms| - 1]) else 0)
  }

  /** The number of needed records of ms. */
  function NeededCount(ms: seq<NameEntry>): (r: nat)
    ensures r <= |ms|
  {
    if ms == [] then 0 else NeededCount(ms[..|ms| - 1]) + (if ms[|ms| - 1].needed then 1 else 0)
  }

  /** A needed record at offset: its NewRelativeOffset set. */
  function Place(e: NameEntry, offset: int): NameEntry
  {
    if e.needed then e.(newRelativeOffset := offset) else e
  }

  /** Every needed record placed where the ones before it end. */
  function Placed(ms: seq<NameEntry>): (r: seq<NameEntry>)
    ensures |r| == |ms|
  {
    if ms == [] then [] else Placed(ms[..|ms| - 1]) + [Place(ms[|ms| - 1], StorageSpan(ms[..|ms| - 1]))]
  }

  /** The six shorts of a needed record. */
  function Record(e: NameEntry): seq<int>
  {
    [e.platformId, e.encodingId, e.languageId, e.nameId, Len(e), e.newRelativeOffset]
  }

  /** The name records BuildNames writes: one per needed record. */
  function Records(ps: seq<NameEntry>): seq<byte>
  {
    if ps == [] then []
    else Records(ps[..|ps| - 1]) + (if ps[|ps| - 1].needed then Tables.Shorts(Record(ps[|ps| - 1])) else [])
  }

  /** Every needed record without new content can be copied: its offset is not negative. */
  predicate Copyable(ps: seq<NameEntry>)
  {
    forall k | 0 <= k < |ps| && ps[k].needed && ps[k].newContent.None? :: ps[k].offset >= 0
  }

  /** The string of one needed record: its new content or a copy of the original. */
  function Body(e: NameEntry, font: seq<byte>): (r: seq<byte>)
    requires e.newContent.None? ==> e.offset >= 0
    ensures Len(e) >= 0 ==> |r| == Len(e)
  {
    if e.newContent.Some? then e.newContent.value
    else Writer.Copied(font, e.offset, e.length, Checksum.Zeros(Writer.COPY_BUFFER_SIZE))
  }

  /** The string storage: the strings of the needed records, in order. */
  function Bodies(ps: seq<NameEntry>, font: seq<byte>): seq<byte>
    requires Copyable(ps)
  {
    if ps == [] then []
    else
      assert Copyable(ps[..|ps| - 1]) by {
        forall k | 0 <= k < |ps| - 1 && ps[k].needed && ps[k].newContent.None?
          ensures ps[..|ps| - 1][k].offset >= 0
        {
        }
      }
      Bodies(ps[..|ps| - 1], font) + (if ps[|ps| - 1].needed then Body(ps[|ps| - 1], font) else [])
  }

  /** The header: format 0, the record count and the offset of the string storage. */
  function NamesHeader(count: int): seq<byte>
  {
    Tables.Shorts([0, count, count * 12 + 6])
  }

  /** The new 'name' table; a record to copy from a negative offset makes the seek fail. */
  function NamesTable(ps: seq<NameEntry>, font: seq<byte>): Result<seq<byte>>
  {
    if !Copyable(ps) then Failure(SEEK_ERROR)
    else Success(NamesHeader(NeededCount(ps)) + Records(ps) + Bodies(ps, font))
  }

  /** What BuildNames produces: the records as it leaves them and the table. */
  datatype NamesBuilt = NamesBuilt(entries: seq<NameEntry>, table: seq<byte>)

  /** BuildNames as a function. */
  function BuiltNames(names: seq<NameEntry>, font: seq<byte>, fontId: seq<CodeUnit>): Result<NamesBuilt>
  {
    var marked := MarkedAll(names, font, fontId);
    if marked.Failure? then Failure(marked.error)
    else
      var table := NamesTable(Placed(marked.value), font);
      if table.Failure? then Failure(table.error) else Success(NamesBuilt(Placed(marked.value), table.value))
  }

  // ---------------------------------------------------------------- layout facts

  /** Placing changes nothing but NewRelativeOffset. */
  lemma {:induction false} PlacedKeeps(ms: seq<NameEntry>, k: nat)
    requires k < |ms|
    ensures Placed(ms)[k] == ms[k].(newRelativeOffset := Placed(ms)[k].newRelativeOffset)
    ensures ms[k].needed ==> Placed(ms)[k].newRelativeOffset == StorageSpan(ms[..k])
  {
    if k < |ms| - 1 {
      PlacedKeeps(ms[..|ms| - 1], k);
      assert ms[..|ms| - 1][..k] == ms[..k];
    } else {
      assert ms[..k] == ms[..|ms| - 1];
    }
  }

  /** The string storage of placed records is as long as their span. */
  lemma {:induction false} BodiesLength(ms: seq<NameEntry>, font: seq<byte>)
    requires Copyable(Placed(ms))
    requires forall k | 0 <= k < |ms| && ms[k].needed :: Len(ms[k]) >= 0
    ensures |Bodies(Placed(ms), font)| == StorageSpan(ms)
  {
    if ms != [] {
      var p := ms[..|ms| - 1];
      assert Placed(ms)[..|ms| - 1] == Placed(p);
      assert Copyable(Placed(p)) by {
        forall k | 0 <= k < |p| && Placed(p)[k].needed && Placed(p)[k].newContent.None?
          ensures Placed(p)[k].offset >= 0
        {
          assert Placed(ms)[k] == Placed(p)[k];
        }
      }
      BodiesLength(p, font);
      PlacedKeeps(ms, |ms| - 1);
    }
  }

  /** s sits in b from offset off on. */
  predicate Locates(b: seq<byte>, off: int, s: seq<byte>)
  {
    0 <= off && off + |s| <= |b| && b[off..off + |s|] == s
  }

  /**
   * The headline of the layout: the offset and length BuildNames records
   * for a needed record locate its string in the storage.
   */
  lemma {:induction false} RecordLocatesString(ms: seq<NameEntry>, font: seq<byte>, k: nat)
    requires k < |ms| && Placed(ms)[k].needed && Copyable(Placed(ms))
    requires forall j | 0 <= j < |ms| && ms[j].needed :: Len(ms[j]) >= 0
    ensures Locates(Bodies(Placed(ms), font), Placed(ms)[k].newRelativeOffset, Body(Placed(ms)[k], font))
  {
    var ps := Placed(ms);
    var p := ms[..|ms| - 1];
    assert ps[..|ms| - 1] == Placed(p);
    assert Copyable(Placed(p)) by {
      forall j | 0 <= j < |p| && Placed(p)[j].needed && Placed(p)[j].newContent.None?
        ensures Placed(p)[j].offset >= 0
      {
        assert ps[j] == Placed(p)[j];
      }
    }
    BodiesLength(p, font);
    SpanNonNegative(p);
    PlacedKeeps(ms, k);
    if k < |ms| - 1 {
      RecordLocatesString(p, font, k);
      assert ps[k] == Placed(p)[k];
    } else {
      assert ms[..k] == p;
    }
  }

  /** Spans of records with non-negative lengths are not negative. */
  lemma {:induction false} SpanNonNegative(ms: seq<NameEntry>)
    requires forall j | 0 <= j < |ms| && ms[j].needed :: Len(ms[j]) >= 0
    ensures StorageSpan(ms) >= 0
  {
    if ms != [] {
      SpanNonNegative(ms[..|ms| - 1]);
    }
  }

  /** The records take twelve bytes each. */
  lemma {:induction false} RecordsLength(ps: seq<NameEntry>)
    ensures |Records(ps)| == 12 * NeededCount(ps)
  {
    if ps != [] {
      RecordsLength(ps[..|ps| - 1]);
    }
  }

  /**
   * The table's size: the six-byte header, twelve bytes per kept record,
   * and the strings; the storage offset in the header is where they start.
   */
  lemma TableLength(ms: seq<NameEntry>, font: seq<byte>)
    requires Copyable(Placed(ms))
    requires forall j | 0 <= j < |ms| && ms[j].needed :: Len(ms[j]) >= 0
    ensures var t := NamesTable(Placed(ms), font);
      t.Success? && |t.value| == 6 + 12 * NeededCount(Placed(ms)) + StorageSpan(ms)
  {
    BodiesLength(ms, font);
    RecordsLength(Placed(ms));
  }

  // ---------------------------------------------------------------- BuildNames

  /** The switch of BuildNames for one record. */
  method MarkEntry(e: NameEntry, font: seq<byte>, fontId: seq<CodeUnit>) returns (r: Result<NameEntry>)
    ensures r == Marked(e, font, fontId)
  {
    if KeptAsIs(e.nameId) {
      return Success(e.(needed := true));
    } else if Renames(e.nameId) {
      var read := Tables.ReadFresh(font, e.offset, e.length);
      if read.Failure? {
        return Failure(read.error);
      }
      var buffer := read.value[..];
      var content;
      if IsUnicodeEntry(e) {
        var name := DecodeUnicode(buffer, e.length);
        content := EncodeUnicode(SUBSET_PREFIX + name);
      } else {
        var length := DetectStringLength(buffer);
        content := Latin1Bytes(SUBSET_PREFIX + Latin1Chars(buffer[..length]));
      }
      return Success(e.(needed := true, newContent := Some(content)));
    } else if e.nameId == UNIQUE_ID {
      var content;
      if IsUnicodeEntry(e) {
        content := EncodeUnicode(fontId);
      } else {
        content := Latin1Bytes(fontId);
      }
      return Success(e.(needed := true, newContent := Some(content)));
    }
    return Success(e);
  }

  /** The first loop of BuildNames: every record marked, and the needed ones placed. */
  method MarkNames(names: array<NameEntry>, font: seq<byte>, fontId: seq<CodeUnit>) returns (r: Result<nat>)
    modifies names
    ensures r.Success? <==> MarkedAll(old(names[..]), font, fontId).Success?
    ensures r.Failure? ==> r.error == MarkedAll(old(names[..]), font, fontId).error
    ensures r.Success? ==> names[..] == Placed(MarkedAll(old(names[..]), font, fontId).value)
    ensures r.Success? ==> r.value == NeededCount(names[..])
  {
    ghost var original := names[..];
    ghost var marked: seq<NameEntry> := [];
    var offset := 0;
    var count := 0;
    var i := 0;
    assert original[..0] == [];
    while i < names.Length
      invariant 0 <= i <= names.Length
      invariant MarkedUpTo(names[..], original, font, fontId, marked, i, offset, count)
    {
      MarkCurrent(names[..], original, font, fontId, marked, i, offset, count);
      var m := MarkEntry(names[i], font, fontId);
      if m.Failure? {
        MarkStuck(names[..], original, font, fontId, marked, i, offset, count);
        return Failure(m.error);
      }
      MarkAdvance(names[..], original, font, fontId, marked, i, offset, count, m.value);
      var entry := m.value;
      if entry.needed {
        entry := entry.(newRelativeOffset := offset);
        offset := offset + Len(entry);
        count := count + 1;
      }
      names[i] := entry;
      marked := marked + [m.value];
      i := i + 1;
    }
    MarkDone(names[..], original, font, fontId, marked, offset, count);
    return Success(count);
  }

  /**
   * The invariant of BuildNames' first loop over the records cur after i
   * iterations: the first i are marked and placed, offset is where the
   * next needed one goes and count how many are needed so far, the rest
   * are untouched.
   */
  predicate MarkedUpTo(cur: seq<NameEntry>, original: seq<NameEntry>, font: seq<byte>, fontId: seq<CodeUnit>,
                       marked: seq<NameEntry>, i: nat, offset: int, count: int)
  {
    i <= |original| == |cur| && |marked| == i
    && MarkedAll(original[..i], font, fontId) == Success(marked)
    && cur[..i] == Placed(marked) && cur[i..] == original[i..]
    && offset == StorageSpan(marked) && count == NeededCount(Placed(marked))
  }

  /** The record the loop is at is still the original one. */
  lemma MarkCurrent(cur: seq<NameEntry>, original: seq<NameEntry>, font: seq<byte>, fontId: seq<CodeUnit>,
                    marked: seq<NameEntry>, i: nat, offset: int, count: int)
    requires MarkedUpTo(cur, original, font, fontId, marked, i, offset, count) && i < |cur|
    ensures cur[i] == original[i]
  {
    assert cur[i..][0] == cur[i];
  }

  /** Marking and placing record i keeps the invariant. */
  lemma MarkAdvance(cur: seq<NameEntry>, original: seq<NameEntry>, font: seq<byte>, fontId: seq<CodeUnit>,
                    marked: seq<NameEntry>, i: nat, offset: int, count: int, m: NameEntry)
    requires MarkedUpTo(cur, original, font, fontId, marked, i, offset, count) && i < |cur|
    requires Marked(original[i], font, fontId) == Success(m)
    ensures MarkedUpTo(cur[i := Place(m, offset)], original, font, fontId, marked + [m], i + 1,
                       offset + (if m.needed then Len(m) else 0), count + (if m.needed then 1 else 0))
  {
    MarkedStep(original, font, fontId, i, marked);
    PlacedStep(marked, m);
    var next := cur[i := Place(m, offset)];
    assert next[..i + 1] == cur[..i] + [Place(m, offset)];
    assert next[i + 1..] == cur[i + 1..];
  }

  /** A record whose read fails makes marking all of them fail with its error. */
  lemma MarkStuck(cur: seq<NameEntry>, original: seq<NameEntry>, font: seq<byte>, fontId: seq<CodeUnit>,
                  marked: seq<NameEntry>, i: nat, offset: int, count: int)
    requires MarkedUpTo(cur, original, font, fontId, marked, i, offset, count) && i < |cur|
    requires Marked(original[i], font, fontId).Failure?
    ensures MarkedAll(original, font, fontId) == Failure(Marked(original[i], font, fontId).error)
  {
    MarkedStep(original, font, fontId, i, marked);
    FailureStays(original, font, fontId, i + 1);
  }

  /** After the last record, every record is marked and placed. */
  lemma MarkDone(cur: seq<NameEntry>, original: seq<NameEntry>, font: seq<byte>, fontId: seq<CodeUnit>,
                 marked: seq<NameEntry>, offset: int, count: int)
    requires MarkedUpTo(cur, original, font, fontId, marked, |cur|, offset, count)
    ensures MarkedAll(original, font, fontId) == Success(marked)
    ensures cur == Placed(marked) && count == NeededCount(cur)
  {
    assert original[..|cur|] == original;
    assert cur[..|cur|] == cur;
  }

  /** Marking one more record extends the marked prefix, or fails with that record's error. */
  lemma MarkedStep(es: seq<NameEntry>, font: seq<byte>, fontId: seq<CodeUnit>, i: nat, marked: seq<NameEntry>)
    requires i < |es| && MarkedAll(es[..i], font, fontId) == Success(marked)
    ensures var m := Marked(es[i], font, fontId);
      MarkedAll(es[..i + 1], font, fontId) == if m.Failure? then Failure(m.error) else Success(marked + [m.value])
  {
    assert es[..i + 1][..i] == es[..i];
  }

  /** Placing one more record: it goes where the others end, and the span and count grow by it. */
  lemma PlacedStep(ms: seq<NameEntry>, m: NameEntry)
    ensures Placed(ms + [m]) == Placed(ms) + [Place(m, StorageSpan(ms))]
    ensures StorageSpan(ms + [m]) == StorageSpan(ms) + (if m.needed then Len(m) else 0)
    ensures NeededCount(Placed(ms + [m])) == NeededCount(Placed(ms)) + (if m.needed then 1 else 0)
  {
    assert (ms + [m])[..|ms|] == ms;
    assert (Placed(ms) + [Place(m, StorageSpan(ms))])[..|ms|] == Placed(ms);
  }

  /** Once marking a prefix fails, marking all of the records fails the same way. */
  lemma {:induction false} FailureStays(es: seq<NameEntry>, font: seq<byte>, fontId: seq<CodeUnit>, n: nat)
    requires n <= |es| && MarkedAll(es[..n], font, fontId).Failure?
    ensures MarkedAll(es, font, fontId) == MarkedAll(es[..n], font, fontId)
    decreases |es| - n
  {
    if n < |es| {
      assert es[..n + 1][..n] == es[..n];
      FailureStays(es, font, fontId, n + 1);
    } else {
      assert es[..n] == es;
    }
  }

  /** The second loop of BuildNames: a name record for every needed entry. */
  method WriteNameRecords(out: ByteStream, ps: seq<NameEntry>)
    modifies out
    ensures out.bytes == old(out.bytes) + Records(ps)
  {
    var i := 0;
    while i < |ps|
      invariant 0 <= i <= |ps|
      invariant out.bytes == old(out.bytes) + Records(ps[..i])
    {
      assert ps[..i + 1][..i] == ps[..i];
      if ps[i].needed {
        Tables.WriteShorts(out, Record(ps[i]));
      }
      i := i + 1;
    }
    assert ps[..i] == ps;
  }

  /** The third loop of BuildNames: the string of every needed entry. */
  method WriteNameBodies(out: ByteStream, ps: seq<NameEntry>, font: seq<byte>) returns (ok: bool)
    modifies out
    ensures ok == Copyable(ps)
    ensures ok ==> out.bytes == old(out.bytes) + Bodies(ps, font)
  {
    var i := 0;
    while i < |ps|
      invariant 0 <= i <= |ps|
      invariant Copyable(ps[..i])
      invariant out.bytes == old(out.bytes) + Bodies(ps[..i], font)
    {
      var e := ps[i];
      if e.needed {
        if e.newContent.Some? {
          out.Write(e.newContent.value);
        } else {
          var copied := Writer.CopyBytes(out, font, e.offset, e.length);
          if !copied {
            NotCopyable(ps, i);
            return false;
          }
        }
      }
      BodiesStep(ps, font, i);
      i := i + 1;
    }
    assert ps[..i] == ps;
    return true;
  }

  /** A needed record to copy from a negative offset makes the records uncopyable. */
  lemma NotCopyable(ps: seq<NameEntry>, i: nat)
    requires i < |ps| && ps[i].needed && ps[i].newContent.None? && ps[i].offset < 0
    ensures !Copyable(ps)
  {
  }

  /** One more copyable record adds its string, when needed, to the storage. */
  lemma BodiesStep(ps: seq<NameEntry>, font: seq<byte>, i: nat)
    requires i < |ps| && Copyable(ps[..i])
    requires ps[i].needed && ps[i].newContent.None? ==> ps[i].offset >= 0
    ensures Copyable(ps[..i + 1])
    ensures Bodies(ps[..i + 1], font) == Bodies(ps[..i], font) + (if ps[i].needed then Body(ps[i], font) else [])
  {
    var q := ps[..i + 1];
    assert q[..i] == ps[..i];
    forall k | 0 <= k < |q| && q[k].needed && q[k].newContent.None?
      ensures q[k].offset >= 0
    {
      if k < i {
        assert q[k] == ps[..i][k];
      }
    }
  }

  /**
   * OpenTypeFont.BuildNames: marks and renames the records in place, then
   * writes the header, the records and the strings.
   */
  method BuildNames(names: array<NameEntry>, font: seq<byte>, fontId: seq<CodeUnit>) returns (r: Result<seq<byte>>)
    modifies names
    ensures var b := BuiltNames(old(names[..]), font, fontId);
      r.Success? == b.Success? && (r.Failure? ==> r.error == b.error) &&
      (r.Success? ==> names[..] == b.value.entries && r.value == b.value.table)
  {
    var marked := MarkNames(names, font, fontId);
    if marked.Failure? {
      return Failure(marked.error);
    }
    var count := marked.value;
    var out := new ByteStream();
    Tables.WriteShorts(out, [0, count, count * 12 + 6]);
    assert out.bytes == NamesHeader(count);
    WriteNameRecords(out, names[..]);
    var ok := WriteNameBodies(out, names[..], font);
    if !ok {
      return Failure(SEEK_ERROR);
    }
    return Success(out.bytes);
  }
}
