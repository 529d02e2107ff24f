/**
 * The sfnt container as OpenTypeFont writes the subset (OpenType
 * specification, "Table Directory"): floorPowerOf2 and the directory header
 * fields derived from it, the relative offsets SweepTables assigns to the
 * tables it keeps, and the header, directory and padded bodies WriteTables
 * emits before it patches the 'head' checkSumAdjustment.
 */
module Sfnt {
  import opened BigEndian
  import opened Checksum
  import opened Outcome

  /** 2 to the power k. */
  function Pow2(k: nat): (r: nat)
    ensures r >= 1
  {
    if k == 0 then 1 else 2 * Pow2(k - 1)
  }

  lemma {:induction false} Pow2Monotone(a: nat, b: nat)
    requires a <= b
    ensures Pow2(a) <= Pow2(b)
    decreases b
  {
    if a < b {
      Pow2Monotone(a, b - 1);
    }
  }

  lemma {:induction false} Pow2Add(a: nat, b: nat)
    ensures Pow2(a + b) == Pow2(a) * Pow2(b)
    decreases b
  {
    if b > 0 {
      Pow2Add(a, b - 1);
      assert Pow2(a + b) == 2 * Pow2(a + (b - 1));
      assert Pow2(a) * Pow2(b) == Pow2(a) * (2 * Pow2(b - 1)) == 2 * (Pow2(a) * Pow2(b - 1));
    }
  }

  lemma Pow2Small()
    ensures Pow2(4) == 16 && Pow2(15) == 0x8000
  {
    assert Pow2(4) == 16;
    Pow2Add(4, 4);
    Pow2Add(8, 7);
    assert Pow2(7) == 128;
  }

  lemma Pow2Large()
    ensures Pow2(30) == 0x4000_0000 && Pow2(31) == 0x8000_0000
  {
    Pow2Small();
    Pow2Add(15, 15);
  }

  /** The C# expression `x << k` on int: the shift count is taken modulo 32 and the result wraps. */
  function ShiftLeft(x: int, k: int): int
  {
    ToInt32(x * Pow2(k % 32))
  }

  /** The value of `1 << i` for a shift count below 32: 2^i, except that 1 << 31 is the sign bit. */
  lemma ShiftOne(i: nat)
    requires i < 32
    ensures i < 31 ==> ShiftLeft(1, i) == Pow2(i)
    ensures i == 31 ==> ShiftLeft(1, i) == -0x8000_0000
  {
    assert i % 32 == i;
    var p := Pow2(i);
    assert ShiftLeft(1, i) == ToInt32(p);
    Pow2Large();
    if i < 31 {
      Pow2Monotone(i, 30);
      assert 0 < p <= 0x4000_0000;
      ToInt32Unique(p, p);
    } else {
      assert p == 0x8000_0000;
    }
  }

  /** e is the exponent floorPowerOf2 is after: n < 2^(e+1), and 2^e <= n unless e is 0. */
  predicate IsFloorLog2(n: int, e: int)
  {
    0 <= e && n < Pow2(e + 1) && (e > 0 ==> Pow2(e) <= n)
  }

  /** For n >= 1 at most one exponent fits. */
  lemma FloorLog2Unique(n: int, e1: int, e2: int)
    requires IsFloorLog2(n, e1) && IsFloorLog2(n, e2)
    ensures e1 == e2
  {
    if e1 < e2 {
      Pow2Monotone(e1 + 1, e2);
    } else if e2 < e1 {
      Pow2Monotone(e2 + 1, e1);
    }
  }

  /**
   * OpenTypeFont.floorPowerOf2: tries 1 << i for i = 1..31 and returns i - 1
   * at the first power above n.  Since 1 << 31 is negative, it succeeds
   * exactly for n < 2^30 and throws "out of range" otherwise.
   */
  method FloorPowerOf2(n: int) returns (r: Result<int>)
    requires IsInt32(n)
    ensures r.Success? <==> n < 0x4000_0000
    ensures r.Success? ==> IsFloorLog2(n, r.value)
  {
    Pow2Large();
    var i := 1;
    while i < 32
      invariant 1 <= i <= 32
      invariant 2 <= i <= 31 ==> n >= Pow2(i - 1)
      invariant i == 32 ==> n >= Pow2(30)
    {
      ShiftOne(i);
      var p := ShiftLeft(1, i);
      if n < p {
        Pow2Monotone(i, 30);
        return Success(i - 1);
      }
      i := i + 1;
    }
    return Failure("out of range");
  }

  /** WriteTables' searchRange and rangeShift: 16 * 2^e, and how far 16 * n exceeds it. */
  lemma DirectoryHeader(n: int, e: int)
    requires 1 <= n < 0x8000 && IsFloorLog2(n, e)
    ensures e < 15
    ensures ShiftLeft(1, e + 4) == 16 * Pow2(e)
    ensures 0 <= n * 16 - ShiftLeft(1, e + 4) < ShiftLeft(1, e + 4)
  {
    Pow2Small();
    if e >= 15 {
      Pow2Monotone(15, e);
    }
    ShiftOne(e + 4);
    Pow2Add(e, 4);
    var p := Pow2(e);
    assert Pow2(e + 4) == p * 16;
    assert Pow2(e + 1) == 2 * p;
    assert n < 2 * p;
    assert e > 0 ==> p <= n;
  }

  /** `(len + 3) & ~3`: len rounded up to a multiple of 4. */
  function Padded4(len: int): (r: int)
    ensures r % 4 == 0 && len <= r < len + 4
  {
    ((len + 3) / 4) * 4
  }

  /** `(4 - len) & 3`: the number of zero bytes that complete len to a multiple of 4. */
  function PadCount(len: int): (r: int)
    ensures 0 <= r < 4 && (len + r) % 4 == 0
    ensures len >= 0 ==> len + r == Padded4(len)
  {
    (4 - len) % 4
  }

  /**
   * Table identifiers.  The source keeps them as the 4-character strings it
   * reads through ISO-8859-1 from the 4 tag bytes of the directory; here they
   * are those 4 bytes read as one big-endian 32-bit value.
   */
  const CMAP: int := 0x636D6170
  const HEAD: int := 0x68656164
  const HHEA: int := 0x68686561
  const HMTX: int := 0x686D7478
  const MAXP: int := 0x6D617870
  const NAME: int := 0x6E616D65
  const OS_2: int := 0x4F532F32
  const POST: int := 0x706F7374
  const CVT: int := 0x63767420
  const FPGM: int := 0x6670676D
  const PREP: int := 0x70726570
  const GASP: int := 0x67617370
  const GLYF: int := 0x676C7966
  const LOCA: int := 0x6C6F6361
  const CFF: int := 0x43464620

  /** A table directory entry (TableDirectoryEntry), with the fields the writer sets. */
  datatype TableEntry = TableEntry(
    tag: int,
    checkSum: int,
    offset: int,
    length: int,
    needed: bool,
    newContent: Option<seq<byte>>,
    newRelativeOffset: int)

  /** The number of bytes a table occupies in the subset: its new content's, else its original length. */
  function LaidLength(e: TableEntry): int
  {
    if e.newContent.Some? then |e.newContent.value| else e.length
  }

  /** The bytes a table takes in the subset, padded to 4; nothing for a table left out. */
  function Footprint(e: TableEntry): int
  {
    if e.needed then Padded4(LaidLength(e)) else 0
  }

  /** The padded lengths of the needed tables of es, summed: where the next table would go. */
  function Span(es: seq<TableEntry>): int
  {
    if es == [] then 0 else Span(es[..|es| - 1]) + Footprint(es[|es| - 1])
  }

  /** A needed table placed at relative offset off; an unneeded one keeps its old offset. */
  function Place(e: TableEntry, off: int): TableEntry
  {
    if e.needed then e.(newRelativeOffset := off) else e
  }

  /** Every needed table placed right after the needed tables before it. */
  function Layout(es: seq<TableEntry>): (r: seq<TableEntry>)
    ensures |r| == |es|
  {
    if es == [] then [] else Layout(es[..|es| - 1]) + [Place(es[|es| - 1], Span(es[..|es| - 1]))]
  }

  lemma SpanSnoc(es: seq<TableEntry>, e: TableEntry)
    ensures Span(es + [e]) == Span(es) + Footprint(e)
    ensures Layout(es + [e]) == Layout(es) + [Place(e, Span(es))]
  {
    assert (es + [e])[..|es|] == es;
  }

  /** Every needed table of es has a non-negative length (a table read with a length of 2^31 or more has not). */
  predicate Sized(es: seq<TableEntry>)
  {
    forall j | 0 <= j < |es| :: es[j].needed ==> LaidLength(es[j]) >= 0
  }

  /** Table j of the layout is table j placed at the summed padded lengths of the needed tables before it. */
  lemma {:induction false} LayoutAt(es: seq<TableEntry>, j: nat)
    requires j < |es|
    ensures Layout(es)[j] == Place(es[j], Span(es[..j]))
    decreases |es|
  {
    var n := |es| - 1;
    if j < n {
      LayoutAt(es[..n], j);
      assert es[..n][..j] == es[..j];
    }
  }

  /** Every offset the layout hands out is a multiple of 4. */
  lemma {:induction false} SpanAligned(es: seq<TableEntry>, j: nat)
    requires j <= |es|
    ensures Span(es[..j]) % 4 == 0
  {
    if j > 0 {
      SpanAligned(es, j - 1);
      assert es[..j][..j - 1] == es[..j - 1];
      var a, f := Span(es[..j - 1]), Footprint(es[j - 1]);
      assert Span(es[..j]) == a + f;
      assert a == 4 * (a / 4) && f == 4 * (f / 4);
      assert a + f == 4 * (a / 4 + f / 4);
    }
  }

  /** With non-negative lengths, later tables start no earlier. */
  lemma {:induction false} SpanMonotone(es: seq<TableEntry>, j: nat, k: nat)
    requires j <= k <= |es| && Sized(es)
    ensures Span(es[..j]) <= Span(es[..k])
    decreases k - j
  {
    if j < k {
      SpanMonotone(es, j, k - 1);
      assert es[..k][..k - 1] == es[..k - 1];
    }
  }

  /**
   * What SweepTables' layout guarantees: each needed table starts on a
   * 4-byte boundary, keeps everything but its new offset, and ends before
   * the next needed table begins, so the bodies WriteTables emits in
   * directory order land where the directory says.
   */
  lemma LayoutPlacesTables(es: seq<TableEntry>, j: nat, k: nat)
    requires j < k < |es| && Sized(es) && es[j].needed && es[k].needed
    ensures Layout(es)[j] == es[j].(newRelativeOffset := Span(es[..j]))
    ensures Layout(es)[j].newRelativeOffset % 4 == 0
    ensures Layout(es)[j].newRelativeOffset + LaidLength(es[j]) <= Layout(es)[k].newRelativeOffset
  {
    LayoutAt(es, j);
    LayoutAt(es, k);
    SpanAligned(es, j);
    assert es[..j + 1][..j] == es[..j];
    SpanMonotone(es, j + 1, k);
  }

  /** Every needed table of es sits at the summed padded lengths of the needed tables before it. */
  predicate LaidOut(es: seq<TableEntry>)
  {
    forall j | 0 <= j < |es| :: es[j].needed ==> es[j].newRelativeOffset == Span(es[..j])
  }

  /** Laying out a prefix gives the prefix of the layout. */
  lemma {:induction false} LayoutPrefix(es: seq<TableEntry>, j: nat)
    requires j <= |es|
    ensures Layout(es)[..j] == Layout(es[..j])
    decreases |es|
  {
    if j < |es| {
      var n := |es| - 1;
      LayoutPrefix(es[..n], j);
      assert es[..n][..j] == es[..j];
      assert Layout(es)[..n] == Layout(es[..n]);
      assert Layout(es)[..j] == Layout(es)[..n][..j];
    } else {
      assert es[..j] == es;
    }
  }

  /** Placing tables does not change how much room they take. */
  lemma {:induction false} SpanLayout(es: seq<TableEntry>)
    ensures Span(Layout(es)) == Span(es)
    decreases |es|
  {
    if es != [] {
      var n := |es| - 1;
      SpanLayout(es[..n]);
      var laid := Layout(es);
      assert laid[..n] == Layout(es[..n]);
      assert Footprint(laid[n]) == Footprint(es[n]);
    }
  }

  /** The layout is laid out: each needed table's offset is the room taken by the laid-out tables before it. */
  lemma LayoutLaidOut(es: seq<TableEntry>)
    ensures LaidOut(Layout(es))
  {
    var laid := Layout(es);
    forall j | 0 <= j < |laid| && laid[j].needed
      ensures laid[j].newRelativeOffset == Span(laid[..j])
    {
      LayoutAt(es, j);
      LayoutPrefix(es, j);
      SpanLayout(es[..j]);
    }
  }

  /** The message of the NullReferenceException SweepTables throws on a 'loca' table with no glyf section. */
  const NULL_REFERENCE: string := "Object reference not set to an instance of an object."

  /**
   * What the builders SweepTables calls produce for the subset, each with
   * the failure it may throw: the glyph section of the font's flavour
   * ('glyf' for TrueType outlines, 'CFF ' otherwise, the other one null),
   * and the results of the table builders, which SweepTables consults only
   * for the tags it meets.
   */
  datatype Rebuilt = Rebuilt(
    cmap: Result<seq<byte>>,
    head: Result<seq<byte>>,
    hhea: Result<seq<byte>>,
    hmtx: seq<byte>,
    maxp: Result<seq<byte>>,
    name: Result<seq<byte>>,
    os2: Result<seq<byte>>,
    glyf: Option<seq<byte>>,
    loca: seq<byte>,
    cff: Option<seq<byte>>)

  /**
   * The 'loca' format SweepTables asks BuildHead and BuildGlyphLocations
   * for: short offsets exactly when there is a glyf section of at most
   * 0x1FFFF bytes, so that every offset halved fits 16 bits.
   */
  predicate ShortLoca(glyf: Option<seq<byte>>)
  {
    glyf.Some? && |glyf.value| <= 0x1FFFF
  }

  /** Tables copied unchanged into the subset. */
  predicate KeptAsIs(tag: int)
  {
    tag == POST || tag == CVT || tag == FPGM || tag == PREP || tag == GASP
  }

  /** A table marked needed with new content, or the builder's failure. */
  function Install(e: TableEntry, content: Result<seq<byte>>): (r: Result<TableEntry>)
  {
    if content.Failure? then Failure(content.error)
    else Success(e.(needed := true, newContent := Some(content.value)))
  }

  /**
   * The per-tag decision of SweepTables: rebuilt tables get their new
   * content (or the builder's failure), kept tables are only marked needed,
   * the rest are untouched.  'glyf' and 'CFF ' take the glyph section of
   * that flavour, which is null (None) when the font is of the other one;
   * 'loca' reads the length of the glyf section, so a 'loca' table in a
   * font without one dereferences null.
   */
  function Swept(e: TableEntry, b: Rebuilt): (r: Result<TableEntry>)
    ensures r.Success? ==> r.value.tag == e.tag
  {
    if e.tag == CMAP then Install(e, b.cmap)
    else if e.tag == HEAD then Install(e, b.head)
    else if e.tag == HHEA then Install(e, b.hhea)
    else if e.tag == HMTX then Install(e, Success(b.hmtx))
    else if e.tag == MAXP then Install(e, b.maxp)
    else if e.tag == NAME then Install(e, b.name)
    else if e.tag == OS_2 then Install(e, b.os2)
    else if e.tag == GLYF then Success(e.(needed := true, newContent := b.glyf))
    else if e.tag == LOCA then (if b.glyf.None? then Failure(NULL_REFERENCE) else Install(e, Success(b.loca)))
    else if e.tag == CFF then Success(e.(needed := true, newContent := b.cff))
    else if KeptAsIs(e.tag) then Success(e.(needed := true))
    else Success(e)
  }

  /** Swept applied to every table in directory order, stopping at the first failure. */
  function SweptAll(es: seq<TableEntry>, b: Rebuilt): (r: Result<seq<TableEntry>>)
    ensures r.Success? ==> |r.value| == |es|
  {
    if es == [] then Success([])
    else
      var pre := SweptAll(es[..|es| - 1], b);
      if pre.Failure? then pre
      else
        var last := Swept(es[|es| - 1], b);
        if last.Failure? then Failure(last.error) else Success(pre.value + [last.value])
  }

  /** SweptAll fails exactly when some table's Swept fails, and then with the first such failure. */
  lemma {:induction false} SweptAllFails(es: seq<TableEntry>, b: Rebuilt)
    ensures SweptAll(es, b).Failure? <==> exists j | 0 <= j < |es| :: Swept(es[j], b).Failure?
    ensures SweptAll(es, b).Failure? ==> exists j | 0 <= j < |es| ::
      Swept(es[j], b).Failure? && SweptAll(es, b).error == Swept(es[j], b).error &&
      forall k | 0 <= k < j :: Swept(es[k], b).Success?
  {
    if es != [] {
      var n := |es| - 1;
      SweptAllFails(es[..n], b);
      assert forall j | 0 <= j < n :: es[..n][j] == es[j];
    }
  }

  /** Each swept table keeps its tag and the fields Swept does not set. */
  lemma {:induction false} SweptAllAt(es: seq<TableEntry>, b: Rebuilt, j: nat)
    requires j < |es| && SweptAll(es, b).Success?
    ensures Swept(es[j], b).Success? && SweptAll(es, b).value[j] == Swept(es[j], b).value
  {
    var n := |es| - 1;
    if j < n {
      SweptAllAt(es[..n], b, j);
    }
  }

  /**
   * SweepTables' loop invariant over the directory cur after i iterations:
   * the first i tables are swept and laid out, offset is where the next one
   * goes and the rest are untouched.
   */
  predicate SweptUpTo(cur: seq<TableEntry>, original: seq<TableEntry>, b: Rebuilt, i: nat, offset: int)
  {
    i <= |original| == |cur|
    && SweptAll(original[..i], b).Success?
    && offset == Span(SweptAll(original[..i], b).value)
    && cur[..i] == Layout(SweptAll(original[..i], b).value)
    && cur[i..] == original[i..]
  }

  /** One more table swept and laid out keeps the invariant. */
  lemma SweepAdvance(cur: seq<TableEntry>, original: seq<TableEntry>, b: Rebuilt, i: nat, offset: int, e: TableEntry)
    requires SweptUpTo(cur, original, b, i, offset) && i < |cur|
    requires Swept(original[i], b) == Success(e)
    ensures cur[i] == original[i]
    ensures SweptUpTo(cur[i := Place(e, offset)], original, b, i + 1, offset + Footprint(e))
  {
    var es := original[..i + 1];
    assert es[..i] == original[..i];
    assert cur[i..][0] == cur[i];
    SpanSnoc(SweptAll(original[..i], b).value, e);
    var next := cur[i := Place(e, offset)];
    assert next[..i + 1] == cur[..i] + [next[i]];
    assert next[i + 1..] == cur[i + 1..];
  }

  /** When table i fails to build, the whole sweep fails with its error. */
  lemma SweepStuck(cur: seq<TableEntry>, original: seq<TableEntry>, b: Rebuilt, i: nat, offset: int)
    requires SweptUpTo(cur, original, b, i, offset) && i < |cur|
    requires Swept(cur[i], b).Failure?
    ensures SweptAll(original, b) == Failure(Swept(cur[i], b).error)
  {
    assert cur[i..][0] == cur[i];
    assert original[..i + 1][..i] == original[..i];
    FailureStays(original, b, i + 1);
  }

  /** A failure of a prefix is the failure of the whole sweep. */
  lemma {:induction false} FailureStays(es: seq<TableEntry>, b: Rebuilt, n: nat)
    requires n <= |es| && SweptAll(es[..n], b).Failure?
    ensures SweptAll(es, b) == SweptAll(es[..n], b)
    decreases |es| - n
  {
    if n < |es| {
      assert es[..n + 1][..n] == es[..n];
      FailureStays(es, b, n + 1);
    } else {
      assert es[..n] == es;
    }
  }

  /** After the last table the whole directory is swept and laid out. */
  lemma SweepDone(cur: seq<TableEntry>, original: seq<TableEntry>, b: Rebuilt, offset: int)
    requires SweptUpTo(cur, original, b, |cur|, offset)
    ensures SweptAll(original, b).Success?
    ensures cur == Layout(SweptAll(original, b).value)
  {
    assert original[..|cur|] == original;
    assert cur[..|cur|] == cur;
  }

  /**
   * The placement at the end of SweepTables' loop body: a needed table
   * gets the relative offset and advances it by its padded length.
   */
  method PlaceEntry(entries: array<TableEntry>, i: int, entry: TableEntry, offset: int) returns (next: int)
    requires 0 <= i < entries.Length
    modifies entries
    ensures entries[..] == old(entries[..])[i := Place(entry, offset)]
    ensures next == offset + Footprint(entry)
  {
    var e := entry;
    next := offset;
    if e.needed {
      var len := LaidLength(e);
      e := e.(newRelativeOffset := offset);
      next := offset + Padded4(len);
    }
    entries[i] := e;
  }

  /**
   * OpenTypeFont.SweepTables, given what its builders produce: decides per
   * tag which tables the subset keeps, installs the rebuilt content and lays
   * the kept tables out one after the other, each starting at the padded
   * end of the previous one.  It fails with the first builder failure met
   * in directory order, or on a 'loca' table in a font without a glyf
   * section.
   */
  method SweepTables(entries: array<TableEntry>, built: Rebuilt) returns (r: Result<()>)
    modifies entries
    ensures var s := SweptAll(old(entries[..]), built);
      r.Success? == s.Success? && (r.Failure? ==> r.error == s.error) &&
      (r.Success? ==> entries[..] == Layout(s.value))
  {
    ghost var original := entries[..];
    var offset := 0;
    var i := 0;
    assert original[..0] == [];
    while i < entries.Length
      invariant 0 <= i <= entries.Length
      invariant SweptUpTo(entries[..], original, built, i, offset)
    {
      var swept := Swept(entries[i], built);
      if swept.Failure? {
        SweepStuck(entries[..], original, built, i, offset);
        return Failure(swept.error);
      }
      SweepAdvance(entries[..], original, built, i, offset, swept.value);
      offset := PlaceEntry(entries, i, swept.value, offset);
      i := i + 1;
    }
    SweepDone(entries[..], original, built, offset);
    return Success(());
  }
}
