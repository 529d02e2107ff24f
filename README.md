# OpenTypeFont subsetter, modelled in Dafny

This project models the core of the `OpenTypeFont` font subsetter: the class
that reads an sfnt font (TrueType or CFF outlines), marks the characters and
glyphs a text uses, renumbers the kept glyphs, rebuilds the tables that
depend on the numbering and writes a new font file with a fresh table
directory and checksum adjustment. It also models the big-endian byte helper
`IOUtils` the class is built on.

The source font is an immutable byte sequence (`seq<byte>`); every
`MemoryStream` the subsetter appends to is a `ByteStream` object whose
`bytes` field only grows; in-place patches (`StuffShort`, `StuffLong`,
`SetIntAtIndex`) work on `array<byte>`. The glyph list is an
`array<GlyphData>` and the character map a `map<int, CharacterData>`, both
fields of the `Subsetting.Font` class whose methods change them in place.
Each loop of the source is a method proved against a value-level function,
and the properties the subsetter relies on are lemmas about those functions.

Modules:

- `Outcome`, `Records`: the Result/Option wrappers (an exception of the
  source is a `Failure`) and the glyph and character records.
- `BigEndian` (bytes.dfy): `IOUtils` and the 16/32/64-bit two's-complement
  conversions, with encode/decode round trips.
- `Checksum`: `CalculateTableCheckSum` and the 'head' checkSumAdjustment
  arithmetic.
- `Sfnt`: `floorPowerOf2`, table lengths and 4-byte padding, and
  `SweepTables`' relative-offset layout.
- `Writer`, `WriterFacts`: `WriteTables` (header, directory, bodies,
  checksum patch) and what a reader finds in the file it returns.
- `CMapSegments`, `CMapEncode`, `CMapDecode`, `CMapFacts`, `CMapRoundTrip`:
  the 'cmap' format 4 encoder `BuildCMap`, the decoder `ReadFormat4CMap`,
  and the round trip between them.
- `Composite`, `Play`, `Reindex`: value-level definitions of composite
  glyph resolution, playing a text and glyph renumbering, with their
  properties.
- `Subsetting` (font.dfy): the `Font` class whose methods run those steps
  in place.
- `Loca`: `ReadGlyphDataTT` (with `ReadGlyphCountTT` and
  `ReadIndexToLocFormatTT`) and `BuildGlyphLocations`, with the round trip
  between them.
- `GlyphsTT`: `BuildGlyphsTT`, which copies the kept glyphs and renumbers
  composite components.
- `Tables`: `BuildMaxP`, `BuildHHea`, `BuildHead`, `BuildHMtx`, `BuildOS2`.
- `Names`: `BuildNames` with `IsUnicodeEntry`, `DecodeUnicode`,
  `EncodeUnicode`, `DetectStringLength` and `GetFontID`.
- `CffToken`, `CffDict`, `CffIndex`, `CffCharset`, `CffStrings`: the CFF
  operands and operators, DICTs, INDEXes, the format 2 charset, string
  renumbering and the SID sweep, each reader with its writer.
- `CffPlaced`, `CffBuild`, `CffIndexFacts`, `CffBuildFacts`: `BuildCFF`, the
  offset placeholders it records and patches, and what a reader finds in the
  table it writes.
- `SubsetFacts`: how the rebuilt 'head', 'loca' and 'glyf' fit together in
  the subset file.

## Model

| member | source | states |
|---|---|---|
| BigEndian.ToInt16Unique | OpenTypeFont/IOUtils.cs:16-19 | a (short) cast yields the one 16-bit signed value congruent to its argument modulo 2^16 |
| BigEndian.ToInt32Unique | OpenTypeFont/IOUtils.cs:11-14 | an (int) wrap yields the one 32-bit signed value congruent to its argument modulo 2^32 |
| BigEndian.GetShort | OpenTypeFont/IOUtils.cs:16-19 | GetShort is a signed 16-bit value whose unsigned reading is buf[o]·256 + buf[o+1] |
| BigEndian.GetInt | OpenTypeFont/IOUtils.cs:11-14 | GetInt is a signed 32-bit value whose unsigned reading is the big-endian value of buf[o..o+4] |
| BigEndian.GetShortOfShortBytes | OpenTypeFont/IOUtils.cs:16-25 | GetShort reads back the two bytes WriteShort writes as (short)n |
| BigEndian.ShortBytesOfGetShort | OpenTypeFont/IOUtils.cs:16-25 | writing what GetShort read reproduces the two bytes read |
| BigEndian.GetIntOfIntBytes | OpenTypeFont/IOUtils.cs:11-14 | GetInt reads back the four bytes WriteInt writes as (int)n, and exactly n for a 32-bit n |
| BigEndian.IntBytesOfGetInt | OpenTypeFont/IOUtils.cs:11-33 | writing what GetInt read reproduces the four bytes read |
| BigEndian.UnsignedOfBytesOf | OpenTypeFont/IOUtils.cs:21-51 | the k bytes written for n, most significant first, read back as n modulo 256^k |
| BigEndian.BytesOfUnsigned | OpenTypeFont/IOUtils.cs:21-51 | any k bytes are the k-byte encoding of their own unsigned value |
| BigEndian.LongBytesValue | OpenTypeFont/IOUtils.cs:41-51 | the eight bytes StuffLong stores are n modulo 2^64, big-endian |
| BigEndian.ByteStream.WriteByte | OpenTypeFont/OpenTypeFont.cs:911-914 | appends exactly one byte, the low eight bits of its argument |
| BigEndian.ByteStream.WriteShort | OpenTypeFont/IOUtils.cs:21-25 | appends exactly two bytes, high then low, and nothing else changes |
| BigEndian.ByteStream.WriteInt | OpenTypeFont/IOUtils.cs:27-33 | appends exactly four bytes, most significant first |
| BigEndian.StuffShort | OpenTypeFont/IOUtils.cs:35-39 | changes only arr[index..index+2], after which GetShort at index is n |
| BigEndian.StuffLong | OpenTypeFont/IOUtils.cs:41-51 | changes only arr[index..index+8], which then hold n big-endian |
| BigEndian.SetIntAtIndex | OpenTypeFont/OpenTypeFont.cs:988-994 | changes only arr[index..index+4], after which GetInt at index is value |
| Checksum.TableCheckSum | OpenTypeFont/OpenTypeFont.cs:996-1011 | the checksum is a 32-bit signed value congruent to the sum of the zero-padded big-endian words |
| Checksum.CalculateTableCheckSum | OpenTypeFont/OpenTypeFont.cs:996-1011 | the two loops (whole words, then the left-aligned partial word) compute TableCheckSum |
| Checksum.WordSumAppend | OpenTypeFont/OpenTypeFont.cs:996-1011 | the word sum of word-aligned pieces is the sum of the pieces' word sums |
| Checksum.PaddedLastWord | OpenTypeFont/OpenTypeFont.cs:1004-1009 | a trailing partial word counts as its bytes shifted to the top of a word |
| Checksum.ChecksumAdjustment | OpenTypeFont/OpenTypeFont.cs:977-983 | writing 0xB1B0AFBA minus the total over a zero, 4-aligned word makes the whole checksum 0xB1B0AFBA |
| Sfnt.FloorPowerOf2 | OpenTypeFont/OpenTypeFont.cs:2236-2246 | succeeds exactly when n < 2^30 and then returns e with 2^e ≤ n < 2^(e+1) (0 for n ≤ 1); fails ("out of range") otherwise |
| Sfnt.FloorLog2Unique | OpenTypeFont/OpenTypeFont.cs:2236-2246 | the exponent floorPowerOf2 returns is the only one satisfying its bounds |
| Sfnt.DirectoryHeader | OpenTypeFont/OpenTypeFont.cs:917-920 | for 1 ≤ n < 2^15, searchRange = 1 << (e+4) is 16·2^e and rangeShift = 16·n − searchRange lies in [0, searchRange) |
| Sfnt.PadCount | OpenTypeFont/OpenTypeFont.cs:963 | (4 − len) & 3 is the number of zero bytes that bring len to a multiple of 4 |
| Sfnt.Padded4 | OpenTypeFont/OpenTypeFont.cs:1125 | (len + 3) & ~3 is the least multiple of 4 not below len |
| Sfnt.LayoutPlacesTables | OpenTypeFont/OpenTypeFont.cs:1121-1126 | each table's new relative offset is the sum of the padded lengths of the needed tables before it, is 4-aligned, and a needed table ends before any later table begins |
| Sfnt.LayoutLaidOut | OpenTypeFont/OpenTypeFont.cs:1121-1126 | the laid-out directory satisfies the layout invariant |
| Sfnt.SweepTables | OpenTypeFont/OpenTypeFont.cs:1018-1128 | marks the kept and rebuilt tables needed, installs the rebuilt content and lays them out; fails with the first builder failure met in directory order, or on a 'loca' entry in a font with no glyf section (the null dereference at line 1098) |
| Sfnt.SweptAllFails | OpenTypeFont/OpenTypeFont.cs:1018-1128 | the sweep fails exactly when some table's step fails, and then with the error of the first one in directory order |
| Writer.FloorLog2Correct | OpenTypeFont/OpenTypeFont.cs:917 | the functional floor log2 used for the header satisfies floorPowerOf2's bounds |
| Writer.FindTag | OpenTypeFont/OpenTypeFont.cs:978 | the table map lookup finds an entry with that tag, or there is none |
| Writer.CopyBytes | OpenTypeFont/OpenTypeFont.cs:1980-1995 | appends exactly len bytes, the font's bytes from offset on, and past the end of the font whatever the 256-byte buffer still holds from earlier reads; a negative offset fails |
| Writer.CopiedInBounds | OpenTypeFont/OpenTypeFont.cs:1980-1995 | within the font, CopyBytes copies exactly font[offset..offset+len] |
| Writer.WriteHeader | OpenTypeFont/OpenTypeFont.cs:904-923 | appends the 12-byte offset table: version, numTables, searchRange, entrySelector, rangeShift |
| Writer.CountNeeded | OpenTypeFont/OpenTypeFont.cs:896-903 | counts the needed tables |
| Writer.WriteDirectory | OpenTypeFont/OpenTypeFont.cs:925-952 | appends one 16-byte record per needed table, in directory order |
| Writer.WriteDirEntry | OpenTypeFont/OpenTypeFont.cs:929-951 | a record holds tag, checksum (recomputed for new content), base + relative offset and length |
| Writer.WriteBodies | OpenTypeFont/OpenTypeFont.cs:954-975 | appends every needed table's content padded to 4 bytes, or fails when a copied table has a negative offset |
| Writer.WriteTables | OpenTypeFont/OpenTypeFont.cs:893-985 | returns the header, directory and bodies with the checksum adjustment written into 'head', or fails as the source throws (no 'head', a slot outside the file, a bad copy) |
| WriterFacts.HeaderReadBack | OpenTypeFont/OpenTypeFont.cs:916-923 | a reader of the written header finds numTables, searchRange = 16·2^e, entrySelector = e with 2^e ≤ n < 2^(e+1), and rangeShift = 16·n − searchRange |
| WriterFacts.RecordFields | OpenTypeFont/OpenTypeFont.cs:926-951 | the directory record of every needed table reads back its tag, checksum, base + relative offset and length |
| WriterFacts.BodyPlaced | OpenTypeFont/OpenTypeFont.cs:954-975 | every needed table's content sits in the file at 12 + 16·numTables + its relative offset |
| WriterFacts.BodyCheckSum | OpenTypeFont/OpenTypeFont.cs:960-968 | the zero padding after a table does not change its checksum |
| WriterFacts.WrittenChecksum | OpenTypeFont/OpenTypeFont.cs:977-983 | when 'head' is needed, laid out and its bytes 8..11 are zero, WriteTables succeeds and the whole file's checksum is 0xB1B0AFBA |
| WriterFacts.AdjustmentWordZero | OpenTypeFont/OpenTypeFont.cs:982 | the checkSumAdjustment slot, head's offset + base + 8, is a 4-aligned word inside the file holding zero |
| CMapSegments.CollectNeeded | OpenTypeFont/OpenTypeFont.cs:2043-2059 | collects exactly the needed code points and their maximum (0 when there is none) |
| CMapSegments.CollectRanges | OpenTypeFont/OpenTypeFont.cs:2061-2095 | the segment loop computes SegmentRanges: the runs of needed code points from 1 to maxChar, then {0xFFFF} when maxChar < 0xFFFF |
| CMapSegments.RunsMaximal | OpenTypeFont/OpenTypeFont.cs:2064-2088 | the runs are maximal, separated by at least one missing code, lie within the needed codes and cover every needed code in 1..maxChar |
| CMapEncode.MappedGlyph | OpenTypeFont/OpenTypeFont.cs:2110-2117 | a code's new glyph id is its glyph's NewIndex (glyph index 0 stays 0); a missing code or a glyph index out of the list fails |
| CMapEncode.SegmentGlyphs | OpenTypeFont/OpenTypeFont.cs:2108-2132 | a segment's ids are the mapped glyphs of its codes, in order, or the failure of the first code that fails |
| CMapEncode.CollectGlyphIds | OpenTypeFont/OpenTypeFont.cs:2104-2132 | computes the segment's glyph ids and whether every id − code is the same |
| CMapEncode.CollectSegments | OpenTypeFont/OpenTypeFont.cs:2097-2139 | computes the segments and sectionLength = 16 + 8·segCount + 2·(glyph-array entries) |
| CMapEncode.Format4Length | OpenTypeFont/OpenTypeFont.cs:2162-2224 | the format 4 bytes written are exactly sectionLength long |
| CMapEncode.WriteCMap | OpenTypeFont/OpenTypeFont.cs:2145-2232 | writes the 20-byte cmap header and the format 4 subtable; the result is sectionLength + 20 bytes |
| CMapEncode.BuildCMap | OpenTypeFont/OpenTypeFont.cs:2040-2233 | computes CMapTable, failing "cmap is too long" when sectionLength exceeds 0xFFFF or a code's lookup fails |
| CMapEncode.SegmentRangesOrdered | OpenTypeFont/OpenTypeFont.cs:2061-2095 | every segment starts no later than it ends |
| CMapDecode.ShortsAt | OpenTypeFont/OpenTypeFont.cs:637-661 | ReadShorts yields n signed shorts read at consecutive 2-byte positions |
| CMapDecode.ReadShorts | OpenTypeFont/OpenTypeFont.cs:637-661 | fails "size" for a negative count, and otherwise reads the shorts |
| CMapDecode.Parse | OpenTypeFont/OpenTypeFont.cs:597-608 | reads segCount = segCountX2/2 and the four columns; fails exactly when the glyph array's count length − 16 − 8·segCount is negative |
| CMapDecode.ReadFormat4 | OpenTypeFont/OpenTypeFont.cs:597-608 | computes Parse |
| CMapDecode.HalfOffset | OpenTypeFont/OpenTypeFont.cs:613 | the corrected rangeOffset: the unsigned idRangeOffset halved, always in [0, 0x8000) |
| CMapDecode.HalfOffsetAgrees | OpenTypeFont/OpenTypeFont.cs:613 | for idRangeOffset below 0x8000 the source's (short)(idRangeOffset/2) equals the corrected value |
| CMapDecode.FarOffsetAsWritten | OpenTypeFont/OpenTypeFont.cs:613-625 | a well-formed subtable with idRangeOffset 0x8000, which the corrected decoder maps to glyph 7, makes the source's lookup fail |
| CMapDecode.AddCode | OpenTypeFont/OpenTypeFont.cs:615-632 | adding a code fails when the code is already in the map (Dictionary.Add) or its glyph lookup fails |
| CMapDecode.AddSegmentCodes | OpenTypeFont/OpenTypeFont.cs:611-633 | the inner loop adds every code of segment i with its decoded glyph (corrected halving of idRangeOffset), stopping at the first failure |
| CMapDecode.ReadFormat4CMap | OpenTypeFont/OpenTypeFont.cs:597-635 | computes Decoded: the map with every code of every segment added, with the corrected halving of idRangeOffset (see Findings) |
| CMapRoundTrip.Format4RoundTrip | OpenTypeFont/OpenTypeFont.cs:2162-2224 | decoding the format 4 bytes of well-formed segments yields exactly the map from every code of every segment to the id stored for it |
| CMapRoundTrip.CMapRoundTrip | OpenTypeFont/OpenTypeFont.cs:2040-2233 | decoding (with the corrected halving) the subtable BuildCMap writes adds exactly the needed codes from 1 on and 0xFFFF, each with the glyph id BuildCMap mapped it to |
| CMapRoundTrip.AsWrittenOffset | OpenTypeFont/OpenTypeFont.cs:613-625 | when the subtable BuildCMap writes is shorter than 0x8000 bytes, every idRangeOffset it writes halves the same way as written and corrected |
| CMapRoundTrip.CMapAsWrittenAgrees | OpenTypeFont/OpenTypeFont.cs:613-625 | for a BuildCMap subtable shorter than 0x8000 bytes, the source's lookup with (short)(idRangeOffset/2) gives every code the same glyph as the corrected one, so the round trip holds for the decoder as written |
| CMapRoundTrip.TableShape | OpenTypeFont/OpenTypeFont.cs:2061-2143 | a successful BuildCMap's segments increase, span their codes, and fit 16-bit fields |
| CMapRoundTrip.LaidKeys | OpenTypeFont/OpenTypeFont.cs:2101-2132 | the codes the segments hold are exactly the codes of the ranges |
| CMapRoundTrip.LaidValues | OpenTypeFont/OpenTypeFont.cs:2108-2131 | each code's stored id is its mapped glyph |
| CMapRoundTrip.ConstSegmentDecodes | OpenTypeFont/OpenTypeFont.cs:2187-2198 | a constant-delta segment, written with idDelta = GlyphIds[0] − Start and offset 0, decodes every code to its id |
| CMapRoundTrip.ArraySegmentDecodes | OpenTypeFont/OpenTypeFont.cs:2200-2212 | an array segment's offset 2·(segCount − i + GlyphsBefore) cancels the decoder's −(segCount − i) and finds each code's id |
| Composite.ArgSize | OpenTypeFont/OpenTypeFont.cs:2314-2339 | the argument size is 2 or 4 plus 0, 2, 4 or 8 by the first scale flag set |
| Composite.FlagMasks | OpenTypeFont/OpenTypeFont.cs:2317-2334 | the flag tests are the bitwise masks of the 16-bit flags |
| Composite.MarkFromSucceeds | OpenTypeFont/OpenTypeFont.cs:2294-2308 | marking a composite's records succeeds exactly when every component id indexes the glyph list |
| Composite.MarkFromMarks | OpenTypeFont/OpenTypeFont.cs:2294-2308 | marking sets needed on exactly the listed components and changes nothing else |
| Composite.ResolvedGrows | OpenTypeFont/OpenTypeFont.cs:2279-2312 | resolution only sets needed flags and compositeTT on composite glyphs |
| Composite.ResolvedSeeks | OpenTypeFont/OpenTypeFont.cs:2283-2286 | when the pass succeeds, no glyph needed when the pass reaches it has a negative offset: the seek to it would have thrown |
| Composite.ResolvedClosed | OpenTypeFont/OpenTypeFont.cs:2279-2312 | when every component has a higher index than its composite, the kept set is closed under components |
| Composite.BackwardComponentSkipped | OpenTypeFont/OpenTypeFont.cs:2281-2311 | a component with a lower index than its parent is marked but not itself scanned, so its own components stay unmarked |
| Composite.StepMarks | OpenTypeFont/OpenTypeFont.cs:2289-2309 | scanning a needed composite whose component ids all name glyphs succeeds, marks exactly its components needed and changes no other glyph |
| Play.PlayAllMarks | OpenTypeFont/OpenTypeFont.cs:835-857 | playing a text marks exactly the mapped characters of the text and the glyphs they map to |
| Play.PlayAllAppend | OpenTypeFont/OpenTypeFont.cs:835-841 | playing two texts in turn is playing their concatenation |
| Reindex.ReindexedNumbering | OpenTypeFont/OpenTypeFont.cs:2250-2276 | glyphs 0 and 1 become needed, and the needed glyphs get NewIndex 0..NewGlyphCount−1 in original order, each used once |
| Reindex.RankIncreasing | OpenTypeFont/OpenTypeFont.cs:2258-2260 | a kept glyph's new index is below every later glyph's |
| Reindex.VariableWidthBounds | OpenTypeFont/OpenTypeFont.cs:2261-2265 | 1 ≤ NewVariableWidthCount ≤ NewGlyphCount |
| Reindex.TrailingSameAdvance | OpenTypeFont/OpenTypeFont.cs:2261-2265 | every kept glyph numbered from NewVariableWidthCount − 1 on has the last advance |
| Reindex.TruncDiv | OpenTypeFont/OpenTypeFont.cs:874 | C# integer division: truncates toward zero |
| Reindex.AverageWithinAdvances | OpenTypeFont/OpenTypeFont.cs:859-875 | with advances in [0, bound], the average weight lies in [0, bound] |
| Subsetting.CanSubsetUnsigned | OpenTypeFont/OpenTypeFont.cs:2341-2352 | the verdict on the sign-extended fsType equals that on the unsigned field |
| Subsetting.Font.constructor | OpenTypeFont/OpenTypeFont.cs:835 | a font state holding the given glyphs, characters and strings |
| Subsetting.Font.PlayChar | OpenTypeFont/OpenTypeFont.cs:843-857 | marks the character and its glyph when mapped, and returns whether the glyph index was in range |
| Subsetting.Font.PlayText | OpenTypeFont/OpenTypeFont.cs:835-841 | plays every character in order, with the outcome of PlayAllMarks |
| Subsetting.Font.ResolveCompositeGlyphs | OpenTypeFont/OpenTypeFont.cs:2279-2312 | the forward pass computes Resolved, failing as the seek throws on a needed glyph at a negative offset and as the list indexer throws on a component past the list |
| Subsetting.Font.MarkComponents | OpenTypeFont/OpenTypeFont.cs:2289-2309 | scans one composite glyph's records |
| Subsetting.Font.MarkRecords | OpenTypeFont/OpenTypeFont.cs:2294-2308 | the component-record loop computes MarkFrom |
| Subsetting.Font.ReindexGlyphs | OpenTypeFont/OpenTypeFont.cs:2248-2277 | renumbers the glyphs as Reindexed, sets NewGlyphCount and NewVariableWidthCount, and marks the custom strings of kept glyphs; fails when a string id is past the string list |
| Subsetting.Font.MarkNameString | OpenTypeFont/OpenTypeFont.cs:2266-2273 | marks a custom CFF string needed, failing on an id past the list |
| Subsetting.Font.CalculateAverageWeight | OpenTypeFont/OpenTypeFont.cs:859-875 | computes AverageWeight: the truncated quotient of the needed advances by 1 + the count of non-zero ones |
| Subsetting.Font.GetNewFirstIndex | OpenTypeFont/OpenTypeFont.cs:1228-1242 | the least needed code point, or 0xFFFFF when none is below it |
| Subsetting.Font.GetNewLastIndex | OpenTypeFont/OpenTypeFont.cs:1207-1226 | the greatest needed code point other than 0xFFFF, capped at 0xFFFF, or 0 |
| Subsetting.Font.PrepareGlyphs | OpenTypeFont/OpenTypeFont.cs:878-888 | resolves composites for TrueType outlines, then reindexes, whatever CanSubset says; it succeeds exactly when resolution succeeds and, for CFF, every kept glyph's string id is in range, and then the glyphs, both counters and the string flags are those ReindexGlyphs computes from the resolved list; the characters are untouched |
| Loca.TableBytes | OpenTypeFont/OpenTypeFont.cs:504-506 | the buffer read for a table has its length, holding the font's bytes from the offset and zeros past the font's end |
| Loca.ReadGlyphDataTT | OpenTypeFont/OpenTypeFont.cs:493-534 | computes ReadLoca: numGlyphs from 'maxp', the format from 'head', "bad 'loca' table size" unless the table holds (numGlyphs + 1) entries of 2 or 4 bytes, then the walk over the entries |
| Loca.WalkLoca | OpenTypeFont/OpenTypeFont.cs:508-532 | the entry loop: each glyph starts at its entry's offset and its length is the next offset minus its own; a negative length fails |
| Loca.OffsetExact | OpenTypeFont/OpenTypeFont.cs:511 | a glyph's offset is its entry (twice the unsigned short, or the int) plus glyf's offset, exactly when that fits an int |
| Loca.LengthExact | OpenTypeFont/OpenTypeFont.cs:511-519 | with offsets that fit an int, a glyph's length is non-negative exactly when its entry does not exceed the next, and is then their difference |
| Loca.DecodeExact | OpenTypeFont/OpenTypeFont.cs:509-532 | with offsets that fit an int, the table reads without error exactly when its entries never decrease |
| Loca.MaxGapAttained | OpenTypeFont/OpenTypeFont.cs:520-523 | MaxGlyphSize ends as its initial value or as the length of one of the glyphs |
| Loca.BuildGlyphLocations | OpenTypeFont/OpenTypeFont.cs:1244-1273 | writes a zero entry and then, per needed glyph, the running sum of the padded lengths: halved as a short, or whole as an int (corrected, see Findings) |
| Loca.ShortFormatAgrees | OpenTypeFont/OpenTypeFont.cs:1262-1265 | in the short format the table as written and the corrected one are the same |
| Loca.LocaRoundTrip | OpenTypeFont/OpenTypeFont.cs:1244-1273 | the table written for kept glyphs, read back by ReadGlyphDataTT, finds every glyph at glyf's offset plus the padded lengths before it, with its padded length |
| Loca.LongLocaAsWritten | OpenTypeFont/OpenTypeFont.cs:1268 | as written, one kept 4-byte glyph in the long format reads back 2 bytes long |
| Loca.LongLocaCorrected | OpenTypeFont/OpenTypeFont.cs:1268 | with the offsets written whole, the same glyph reads back 4 bytes long |
| GlyphsTT.PatchedRecord | OpenTypeFont/OpenTypeFont.cs:2013-2016 | patching a component record keeps the bytes before its glyph index and replaces the index by the short of that glyph's NewIndex; the old index names a glyph |
| GlyphsTT.PatchedReadBack | OpenTypeFont/OpenTypeFont.cs:2014-2016 | the patched glyph index reads back as the component's new index |
| GlyphsTT.PatchRecord | OpenTypeFont/OpenTypeFont.cs:2013-2021 | one pass of the component loop: fails on a glyph index past the list, stops without MORE_COMPONENTS (0x20), or moves on to the next record |
| GlyphsTT.PatchComponents | OpenTypeFont/OpenTypeFont.cs:2011-2022 | the component loop from byte 10 computes Patched on the glyph's bytes and leaves the rest of the array alone |
| GlyphsTT.ReadComposite | OpenTypeFont/OpenTypeFont.cs:2008-2010 | reads a composite into the shared 256-byte buffer, or into a new array when longer; fails on a negative offset or length |
| GlyphsTT.WriteComposite | OpenTypeFont/OpenTypeFont.cs:2006-2023 | a composite glyph read, its components renumbered and its bytes written |
| GlyphsTT.WritePadding | OpenTypeFont/OpenTypeFont.cs:2028-2033 | appends the zeros that pad the glyph to four bytes |
| GlyphsTT.WriteGlyph | OpenTypeFont/OpenTypeFont.cs:2004-2034 | one needed glyph, patched or copied, then its padding |
| GlyphsTT.BuildGlyphsTT | OpenTypeFont/OpenTypeFont.cs:1997-2038 | computes Glyf: every needed glyph in glyph order, padded to four bytes |
| GlyphsTT.GlyfLength | OpenTypeFont/OpenTypeFont.cs:1997-2038 | the output after n glyphs is as long as the padded lengths of the needed glyphs among them |
| GlyphsTT.GlyphLands | OpenTypeFont/OpenTypeFont.cs:2004-2034 | glyph k's new bytes follow the output of the glyphs before it |
| GlyphsTT.GlyphWhereLocaSays | OpenTypeFont/OpenTypeFont.cs:1997-2038 | each needed glyph's new bytes sit in the new 'glyf' at the offset the new 'loca' records for it |
| Tables.Fresh | OpenTypeFont/OpenTypeFont.cs:1457-1459 | copying a table succeeds exactly for a non-negative offset and length, and gives the table's bytes |
| Tables.ReadFresh | OpenTypeFont/OpenTypeFont.cs:1457-1459 | the copy into a new array, failing as Fresh does |
| Tables.MaxPTable | OpenTypeFont/OpenTypeFont.cs:1455-1463 | the copied 'maxp' with numGlyphs (offset 4) overwritten by the new glyph count; fails unless the offset is non-negative and the table holds 6 bytes |
| Tables.BuildMaxP | OpenTypeFont/OpenTypeFont.cs:1455-1463 | computes MaxPTable |
| Tables.MaxPReadBack | OpenTypeFont/OpenTypeFont.cs:545-552 | ReadGlyphCountTT on the rebuilt 'maxp' finds the new glyph count modulo 2^16 |
| Tables.HHeaTable | OpenTypeFont/OpenTypeFont.cs:1483-1491 | the copied 'hhea' with numberOfHMetrics (offset 34) overwritten; fails unless the table holds 36 bytes |
| Tables.BuildHHea | OpenTypeFont/OpenTypeFont.cs:1483-1491 | computes HHeaTable |
| Tables.HHeaReadBack | OpenTypeFont/OpenTypeFont.cs:1483-1491 | numberOfHMetrics reads back as the variable-width count modulo 2^16 |
| Tables.HeadTable | OpenTypeFont/OpenTypeFont.cs:1493-1506 | BuildHead succeeds exactly for a non-negative offset and a table of at least 52 bytes |
| Tables.BuildHead | OpenTypeFont/OpenTypeFont.cs:1493-1506 | computes HeadTable |
| Tables.ZeroChecksum | OpenTypeFont/OpenTypeFont.cs:1498-1501 | zeroes checkSumAdjustment (bytes 8..11) and nothing else |
| Tables.SetLocFormat | OpenTypeFont/OpenTypeFont.cs:1503-1504 | writes indexToLocFormat (bytes 50..51): 0 for short offsets, 1 for long |
| Tables.HeadFacts | OpenTypeFont/OpenTypeFont.cs:1493-1506 | the rebuilt 'head' has a zero checkSumAdjustment, an indexToLocFormat that reads back 0 exactly for short offsets, and the clock's date |
| Tables.BuildHMtx | OpenTypeFont/OpenTypeFont.cs:1465-1481 | computes HMtx: per needed glyph an advance and a side bearing, the advance only for the first NewVariableWidthCount |
| Tables.HMtxStep | OpenTypeFont/OpenTypeFont.cs:1467-1479 | one more glyph appends its record |
| Tables.HMtxPrefix | OpenTypeFont/OpenTypeFont.cs:1465-1481 | after reindexing, the first n glyphs give 4 bytes to each of the first min(v, k) kept glyphs and 2 to the others |
| Tables.HMtxSize | OpenTypeFont/OpenTypeFont.cs:1465-1481 | the table is 4 bytes per long metric and 2 per later kept glyph, as the format prescribes |
| Tables.WriteShorts | OpenTypeFont/OpenTypeFont.cs:1130-1205 | a run of WriteShort calls appends the shorts' bytes |
| Tables.Os2Table | OpenTypeFont/OpenTypeFont.cs:1130-1205 | fails exactly when the panose has fewer than 10 bytes or the vendor id fewer than 4 characters |
| Tables.BuildOS2 | OpenTypeFont/OpenTypeFont.cs:1130-1205 | computes Os2Table |
| Tables.Os2BaseLayout | OpenTypeFont/OpenTypeFont.cs:1130-1170 | the version 0 fields put avgWidth at byte 2 and the first and last character indices at 52 (version 0) or 64 |
| Tables.Os2Layout | OpenTypeFont/OpenTypeFont.cs:1130-1205 | the table is 66, 86 or 96 bytes for version 0, 1 or 2+, with avgWidth and the first and last character indices where the format puts them |
| Names.EnglishRecords | OpenTypeFont/OpenTypeFont.cs:732-744 | a Microsoft Unicode record counts as Unicode exactly when its primary language (the low ten bits) is English, whatever the sublanguage |
| Names.OtherRecords | OpenTypeFont/OpenTypeFont.cs:732-744 | Macintosh records and Microsoft records of other encodings are never Unicode |
| Names.DecodeUnicode | OpenTypeFont/OpenTypeFont.cs:707-730 | length / 2 code units, each from two bytes, big-endian |
| Names.EncodeUnicode | OpenTypeFont/OpenTypeFont.cs:1429-1453 | each code unit as its high byte, then its low byte |
| Names.UnicodeRoundTrip | OpenTypeFont/OpenTypeFont.cs:1429-1453 | decoding what EncodeUnicode wrote gives the string back |
| Names.UnicodeBytesRoundTrip | OpenTypeFont/OpenTypeFont.cs:707-730 | encoding what DecodeUnicode read gives the bytes back, all but a trailing odd byte |
| Names.DetectStringLength | OpenTypeFont/OpenTypeFont.cs:1405-1418 | the number of bytes before the first NUL, or all of them |
| Names.FirstZeroUnique | OpenTypeFont/OpenTypeFont.cs:1405-1418 | the first NUL is unique, so the length is determined |
| Names.GetFontID | OpenTypeFont/OpenTypeFont.cs:1420-1427 | "Subset:" followed by hex digits whose value is the clock's ticks |
| Names.HexRoundTrip | OpenTypeFont/OpenTypeFont.cs:1420-1427 | the hex digits read back as the number, without a leading zero, all ASCII |
| Names.FontIdLatin1 | OpenTypeFont/OpenTypeFont.cs:1336-1337 | the identifier's ISO-8859-1 bytes decode back to it |
| Names.NameBuffer | OpenTypeFont/OpenTypeFont.cs:1298-1300 | the corrected buffer holds Length bytes of the name |
| Names.NameBufferAgrees | OpenTypeFont/OpenTypeFont.cs:1298-1300 | wherever the buffer as written can be read, the corrected one gives the same new name |
| Names.NameBufferTooSmall | OpenTypeFont/OpenTypeFont.cs:1299-1300 | a name longer than its offset in the font makes the read as written throw, and the corrected read succeed |
| Names.RenamedUnicode | OpenTypeFont/OpenTypeFont.cs:1301-1306 | a renamed Unicode record decodes to "Subset-" followed by the old name |
| Names.RenamedLatin1 | OpenTypeFont/OpenTypeFont.cs:1307-1314 | a renamed ISO-8859-1 record is "Subset-" followed by the old name up to its first NUL |
| Names.MarkedKeeps | OpenTypeFont/OpenTypeFont.cs:1281-1344 | a record is needed afterwards exactly when it was or its id is kept; only Needed and NewContent change; renamed records and the unique id get new content; only a renamed record's failed read fails |
| Names.MarkedAllKeeps | OpenTypeFont/OpenTypeFont.cs:1279-1344 | after the first loop each record is needed exactly when it was or its id is kept, with its id, offset and length unchanged |
| Names.MarkEntry | OpenTypeFont/OpenTypeFont.cs:1281-1344 | the switch for one record computes Marked |
| Names.MarkNames | OpenTypeFont/OpenTypeFont.cs:1279-1360 | the first loop marks every record, places the needed ones and counts them, or fails as the first failing read does |
| Names.WriteNameRecords | OpenTypeFont/OpenTypeFont.cs:1366-1386 | appends a 12-byte record per needed entry |
| Names.WriteNameBodies | OpenTypeFont/OpenTypeFont.cs:1388-1401 | appends each needed entry's string, new or copied; a copy from a negative offset fails |
| Names.BuildNames | OpenTypeFont/OpenTypeFont.cs:1275-1403 | computes BuiltNames: the records marked in place and the table written, or the first failure |
| Names.TableLength | OpenTypeFont/OpenTypeFont.cs:1362-1401 | the table is 6 + 12 per kept record + the strings, with the strings starting where the header says |
| Names.RecordLocatesString | OpenTypeFont/OpenTypeFont.cs:1345-1401 | the offset and length written for a needed record locate its string in the storage |
| CffToken.DecodeNibble | OpenTypeFont/OpenTypeFont.cs:456-491 | nibble 0xD is invalid and 0xF ends the number, and no other nibble does either |
| CffToken.ReadObject | OpenTypeFont/OpenTypeFont.cs:390-454 | a token read moves past its first byte, an operator read has a valid key, a read past the data is operator 0 (zero bytes), and only the bytes 22-27, 30, 31 and 255 can fail |
| CffToken.ReadObjectCff | OpenTypeFont/OpenTypeFont.cs:390-454 | the reader, with its nibble loop, computes ReadObject |
| CffToken.IntCffSize | OpenTypeFont/OpenTypeFont.cs:1706-1734 | 1 byte for -107..107, 2 for ±108..1131, 3 (operand 28) for other 16-bit values and 5 (operand 29) otherwise, with the first byte the format fixes |
| CffToken.WriteIntCff | OpenTypeFont/OpenTypeFont.cs:1706-1734 | appends exactly the bytes IntCff gives |
| CffToken.IntCffRoundTrip | OpenTypeFont/OpenTypeFont.cs:1706-1734 | every 32-bit value written reads back, boxed as a short exactly when written with operand 28, and the reader stops right after it |
| CffToken.KeyRoundTrip | OpenTypeFont/OpenTypeFont.cs:1602-1614 | every operator key written (one byte, or 12 then a byte) reads back as that key |
| CffToken.RealRoundTrip | OpenTypeFont/OpenTypeFont.cs:456-491 | packed nibbles with their end mark read back as the characters they spell |
| CffToken.WriteRealCff | OpenTypeFont/OpenTypeFont.cs:1625-1685 | the double branch writes 30, the nibbles paired high then low and the end mark, failing as the source throws ("Bad number", an 'E' at the end) |
| CffToken.WriteNibblePairs | OpenTypeFont/OpenTypeFont.cs:1633-1684 | the character loop writes every completed pair, with the last nibble pending when the count is odd |
| CffToken.RealWritten | OpenTypeFont/OpenTypeFont.cs:1669-1684 | the closing byte after the pairs completes the real operand |
| CffToken.CorrectedStep | OpenTypeFont/OpenTypeFont.cs:1651-1663 | with the exponent nibbles the right way round, each nibble stands for exactly the characters it consumes |
| CffToken.CorrectedSpelling | OpenTypeFont/OpenTypeFont.cs:1633-1684 | the corrected nibbles of a real's text spell that text |
| CffToken.CorrectedRealRoundTrip | OpenTypeFont/OpenTypeFont.cs:1625-1685 | a real written by the corrected double branch reads back as exactly its text, the reader stopping after it |
| CffToken.ExponentSwapped | OpenTypeFont/OpenTypeFont.cs:1651-1663 | as written, "1E-5" reads back as "1E5" and "1E5" as "1E-5" |
| CffToken.SwappedSpelling | OpenTypeFont/OpenTypeFont.cs:456-491 | the reader spells 1, 0xB, 5 as "1E5" and 1, 0xC, 5 as "1E-5" |
| CffDict.ReadDict | OpenTypeFont/OpenTypeFont.cs:359-388 | a DICT read has distinct operator keys, operands only, and never a one-element array |
| CffDict.ReadOperandsCff | OpenTypeFont/OpenTypeFont.cs:366-380 | the inner loop gathers the operands up to the next operator |
| CffDict.ReadDictCff | OpenTypeFont/OpenTypeFont.cs:359-388 | computes ReadDict |
| CffDict.AdjustedOffset | OpenTypeFont/OpenTypeFont.cs:1884-1898 | adjusting moves a placeholder's Offset by adj once per occurrence and records it if it occurs |
| CffDict.EmitDict | OpenTypeFont/OpenTypeFont.cs:1585-1598 | writing a DICT only appends and keeps every recorded placeholder |
| CffDict.DictRecorded | OpenTypeFont/OpenTypeFont.cs:1686-1691 | writing a DICT records each placeholder of its values at the position of its operand |
| CffDict.WriteKeyCff | OpenTypeFont/OpenTypeFont.cs:1602-1614 | appends the key's one or two bytes |
| CffDict.WriteObjectCff | OpenTypeFont/OpenTypeFont.cs:1600-1704 | computes EmitObject: integers, renumbered strings, reals (from their read text, with the corrected exponent nibbles), placeholders and arrays; "unknown object" otherwise |
| CffDict.WriteDictCff | OpenTypeFont/OpenTypeFont.cs:1585-1598 | computes EmitDict: each value, then its key |
| CffDict.EntriesReadBack | OpenTypeFont/OpenTypeFont.cs:359-388 | the bytes of an integer DICT read back as that DICT |
| CffDict.DictRoundTrip | OpenTypeFont/OpenTypeFont.cs:1585-1598 | an integer DICT written and read back gives the same keys in order with the same values, whatever follows it |
| CffIndex.OffSizeFor | OpenTypeFont/OpenTypeFont.cs:1836-1853 | offSize is 1 to 4 |
| CffIndex.OffSizeFits | OpenTypeFont/OpenTypeFont.cs:1836-1853 | the chosen offSize holds the last offset and no smaller one would |
| CffIndex.OffsetBytes | OpenTypeFont/OpenTypeFont.cs:1900-1918 | offSize bytes, or none for an offSize outside 1..4 |
| CffIndex.WriteOffsetCff | OpenTypeFont/OpenTypeFont.cs:1900-1918 | appends OffsetBytes |
| CffIndex.OffsetRoundTrip | OpenTypeFont/OpenTypeFont.cs:1900-1918 | every offset that fits offSize bytes reads back |
| CffIndex.NameLength | OpenTypeFont/OpenTypeFont.cs:272-357 | a name runs up to its first zero byte, within the item |
| CffIndex.NameLengthCff | OpenTypeFont/OpenTypeFont.cs:272-357 | the strlen loop computes NameLength |
| CffIndex.ItemStep | OpenTypeFont/OpenTypeFont.cs:272-357 | reading a name or bytes advances by the item's length, a DICT leaves the stream at the item's end |
| CffIndex.ReadItemCff | OpenTypeFont/OpenTypeFont.cs:272-357 | one pass of the item loop computes ItemStep |
| CffIndex.ReadOffsetsCff | OpenTypeFont/OpenTypeFont.cs:272-357 | the offsets, shifted to positions in the font |
| CffIndex.ReadItemsCff | OpenTypeFont/OpenTypeFont.cs:272-357 | the item loop |
| CffIndex.ReadIndexCff | OpenTypeFont/OpenTypeFont.cs:272-357 | computes ReadIndex |
| CffIndex.ReadIndexSound | OpenTypeFont/OpenTypeFont.cs:272-357 | what ReadIndexCFF returns lies where the offsets put it |
| CffIndex.ReadIndexComplete | OpenTypeFont/OpenTypeFont.cs:272-357 | items lying where the offsets put them are what ReadIndexCFF returns |
| CffIndex.IndexOffsets | OpenTypeFont/OpenTypeFont.cs:1803-1835 | offsets[0] is 1; corrected, offsets[i + 1] is one past item i's data; as written only offsets[1] is set, to one past all the data |
| CffIndex.WriteIndexCff | OpenTypeFont/OpenTypeFont.cs:1791-1873 | computes IndexOut (as written or corrected, see Findings) |
| CffIndex.IndexOutAround | OpenTypeFont/OpenTypeFont.cs:1836-1872 | the INDEX is its header and then its data, with every DICT placeholder moved by the header's end |
| CffIndex.WriteIndexData | OpenTypeFont/OpenTypeFont.cs:1802-1835 | the foreach writes each item to a new data stream, fills the offsets and notes whether an item was a DICT |
| CffIndex.WriteEntryCff | OpenTypeFont/OpenTypeFont.cs:1809-1833 | one item as a string, a DICT, a range or a glyph, or "unknown index type" |
| CffIndex.DataRecorded | OpenTypeFont/OpenTypeFont.cs:1807-1835 | the data stream records every placeholder of every DICT item |
| CffIndex.WriteOffsetsCff | OpenTypeFont/OpenTypeFont.cs:1855-1858 | appends every offset with WriteOffsetCff |
| CffIndex.AdjustIndexCff | OpenTypeFont/OpenTypeFont.cs:1860-1870 | adjusts the placeholders of every DICT item |
| CffPlaced.IndexPlaced | OpenTypeFont/OpenTypeFont.cs:1791-1873 | an INDEX records each placeholder occurring once at its own slot past what the stream held before, and keeps every other Offset |
| CffCharset.ReadCharset | OpenTypeFont/OpenTypeFont.cs:256-270 | gives the n glyphs n SIDs |
| CffCharset.ReadCharsetFormat2Cff | OpenTypeFont/OpenTypeFont.cs:256-270 | each glyph's NamesIdCFF becomes its SID in the charset, and nothing else changes |
| CffCharset.ReadRangeCff | OpenTypeFont/OpenTypeFont.cs:261-268 | the inner loop gives the glyphs of one range the SIDs first, first + 1, … while glyphs are left |
| CffCharset.WriteCharsetCff | OpenTypeFont/OpenTypeFont.cs:1750-1789 | computes CharsetOut: format 2, then a record per run of consecutive SIDs of needed glyphs; fails on an empty glyph list or a SID past the strings |
| CffCharset.WriteSidCff | OpenTypeFont/OpenTypeFont.cs:1760-1786 | one needed glyph's SID extends the run or closes it |
| CffCharset.NeededSidsFail | OpenTypeFont/OpenTypeFont.cs:1750-1789 | a needed glyph whose SID is past the strings makes WriteCharsetCff fail |
| CffCharset.RunsMaximal | OpenTypeFont/OpenTypeFont.cs:1750-1789 | a new record starts exactly where a SID does not follow the previous one |
| CffCharset.RunsBounded | OpenTypeFont/OpenTypeFont.cs:1750-1789 | SIDs within 0..0x7FFF make records whose fields fit |
| CffCharset.ExpandRanges | OpenTypeFont/OpenTypeFont.cs:256-270 | records placed in the data hand out exactly their SIDs, in order |
| CffCharset.CharsetRoundTrip | OpenTypeFont/OpenTypeFont.cs:1750-1789 | the charset written, read back for as many glyphs, gives them their SIDs in order |
| CffStrings.ReindexStringsCff | OpenTypeFont/OpenTypeFont.cs:1920-1951 | marks every string needed, numbers them 391, 392, … in order and returns them, the font name prefixed with "Subset-" |
| CffStrings.NeededSidsSame | OpenTypeFont/OpenTypeFont.cs:1750-1789 | after that renumbering the charset holds the needed glyphs' own SIDs, and fails exactly when one is past the strings |
| CffStrings.SweepDictCff | OpenTypeFont/OpenTypeFont.cs:1953-1978 | computes SweepDict and marks exactly the referenced strings needed |
| CffStrings.SweepKeyCff | OpenTypeFont/OpenTypeFont.cs:1955-1977 | the loop body for one key |
| CffStrings.SweepDictPointwise | OpenTypeFont/OpenTypeFont.cs:1953-1978 | the sweep succeeds exactly when every SID operand is an integer naming a standard or font string, and replaces each font string's SID by a reference to it, leaving every other entry |
| CffStrings.SweptWritesSid | OpenTypeFont/OpenTypeFont.cs:1620-1624 | after renumbering, a swept SID is written as the SID it was |
| CffStrings.ShortSidAsWritten | OpenTypeFont/OpenTypeFont.cs:1963 | as written, a SID stored with operand 28 makes the sweep throw |
| CffStrings.ShortSidCorrected | OpenTypeFont/OpenTypeFont.cs:1963 | the corrected sweep turns the same SID into a reference to its string |
| CffIndexFacts.TwoNamesAsWritten | OpenTypeFont/OpenTypeFont.cs:1806-1834 | as written, the INDEX ["a", "b"] gets the offsets 1, 3, 0 |
| CffIndexFacts.TwoNamesRead | OpenTypeFont/OpenTypeFont.cs:272-357 | reading those bytes back fails on a negative length |
| CffIndexFacts.EmptyIndexAsWritten | OpenTypeFont/OpenTypeFont.cs:1797-1858 | as written, an empty INDEX gets an offSize and an offset after its zero count |
| CffIndexFacts.EmptyIndexRead | OpenTypeFont/OpenTypeFont.cs:272-357 | the reader takes only the zero count and leaves those two bytes behind |
| CffIndexFacts.CorrectedNamesRoundTrip | OpenTypeFont/OpenTypeFont.cs:1791-1873 | with the slot index advanced (and an empty INDEX its count alone), an INDEX of strings reads back as exactly those strings and the reader stops at its end |
| CffBuild.SetKey | OpenTypeFont/OpenTypeFont.cs:1544-1548 | the indexer replaces an existing key's value in place or adds the key last, keeping keys distinct |
| CffBuild.RemoveKey | OpenTypeFont/OpenTypeFont.cs:1550 | Remove drops the key and keeps the other entries |
| CffBuild.MakeGlyphArrayCff | OpenTypeFont/OpenTypeFont.cs:1736-1748 | computes GlyphArray: NewGlyphCount slots, the needed glyphs stored at the next index |
| CffBuild.GlyphArrayFull | OpenTypeFont/OpenTypeFont.cs:1736-1748 | after ReindexGlyphs the array holds exactly the kept glyphs |
| CffBuild.KeptEntries | OpenTypeFont/OpenTypeFont.cs:1736-1748 | after ReindexGlyphs the needed glyphs are the kept ones |
| CffBuild.NullFails | OpenTypeFont/OpenTypeFont.cs:1830-1833 | an INDEX with a null element makes WriteIndexCFF throw |
| CffBuild.CharStringsCount | OpenTypeFont/OpenTypeFont.cs:1736-1748 | BuildCFF's CharStrings INDEX is written only when NewGlyphCount is the number of needed glyphs |
| CffBuild.TopDict | OpenTypeFont/OpenTypeFont.cs:1540-1550 | the swept top DICT with its placeholders: distinct keys, CHARSET and CHARSTRINGS added, ENCODING removed |
| CffBuild.SetPlaceholder | OpenTypeFont/OpenTypeFont.cs:988-994 | SetIntAtIndex, failing on an index past the array and changing nothing then |
| CffBuild.WriteHeaderCff | OpenTypeFont/OpenTypeFont.cs:1519-1524 | appends the header 1, 0, 4, 3 |
| CffBuild.WriteFrontCff | OpenTypeFont/OpenTypeFont.cs:1526-1554 | the Name, top DICT, String and Global Subr INDEXes |
| CffBuild.WriteBackCff | OpenTypeFont/OpenTypeFont.cs:1555-1572 | the charset, the CharStrings INDEX and the private DICT |
| CffBuild.WritePrivateCff | OpenTypeFont/OpenTypeFont.cs:1560-1572 | the private DICT, "private dict writing error" unless it takes its original length, then its subroutines |
| CffBuild.PatchCff | OpenTypeFont/OpenTypeFont.cs:1575-1581 | the SetIntAtIndex calls compute Patched |
| CffBuild.BuildCff | OpenTypeFont/OpenTypeFont.cs:1508-1583 | computes CffOut with the corrected INDEX writer, the corrected SID sweep and the corrected real writer (see Findings) |
| CffBuildFacts.FrontPlaced | OpenTypeFont/OpenTypeFont.cs:1551-1554 | after the top DICT INDEX each placeholder in use has its own slot, and the later INDEXes keep them |
| CffBuildFacts.BackKeeps | OpenTypeFont/OpenTypeFont.cs:1555-1572 | the charset is written where its position is noted, the CharStrings INDEX holds NewGlyphCount glyphs, and nothing moves a placeholder |
| CffBuildFacts.PrivateFits | OpenTypeFont/OpenTypeFont.cs:1560-1567 | once the check passes, the private DICT takes exactly its original length, so the size kept in front of its placeholder is right |
| CffBuildFacts.LayoutPlaced | OpenTypeFont/OpenTypeFont.cs:1508-1572 | before the patches each placeholder in use has its own slot before the charset, and charset, CharStrings and private DICT follow one another |
| CffBuildFacts.PatchWritten | OpenTypeFont/OpenTypeFont.cs:988-994 | SetIntAtIndex writes the operand and leaves one five bytes away alone |
| CffBuildFacts.ReadsWritten | OpenTypeFont/OpenTypeFont.cs:390-454 | ReadObjectCFF reads a patched operand as the 32-bit value and stops after it |
| CffBuildFacts.CffPatchesRead | OpenTypeFont/OpenTypeFont.cs:1575-1581 | the table is the stream with its patches, no patch runs past the array, and the charset, CharStrings and private DICT operands read back as their positions |
| SubsetFacts.SweptHead | OpenTypeFont/OpenTypeFont.cs:1018-1128 | after the sweep 'head' is where it was, needed, with BuildHead's content |
| SubsetFacts.SubsetChecksum | OpenTypeFont/OpenTypeFont.cs:977-983 | with BuildHead's 'head', WriteTables succeeds and the whole file sums to 0xB1B0AFBA |
| SubsetFacts.HeadNamesLocaFormat | OpenTypeFont/OpenTypeFont.cs:1493-1506 | the indexToLocFormat BuildHead writes is the format BuildGlyphLocations is asked for |
| SubsetFacts.SubsetGlyphFound | OpenTypeFont/OpenTypeFont.cs:1244-1273 | a reader of the new short 'loca' finds each kept glyph's new bytes in the new 'glyf', with its padded length |

## Left out

- Stream plumbing: `Seek`/`Read` become indexing into the font's bytes. The
  'cmap' decoder reads on into the font past the end of its subtable, as the
  source does, and a read past the end of the font yields zero bytes where
  the source would keep stale buffer contents; `CopyBytes` does keep them.
  `Stream.Read` returning fewer bytes than asked is not modelled.
- Sfnt.SweepTables: takes the rebuilt tables as inputs (`Rebuilt`); the
  builders that compute them (`BuildGlyphLocations`, `BuildGlyphsTT`,
  `BuildHMtx`, `BuildMaxP`, `BuildHHea`, `BuildHead`, `BuildNames`,
  `BuildOS2`, `BuildCFF`) are modelled on their own, in the modules above.
- The clock: `DateTime.Now.Ticks` (the 'head' dates and the unique font id)
  is a parameter.
- The .NET `UnicodeEncoding` and ISO-8859-1 `Encoding` objects become the
  explicit big-endian UTF-16 code-unit and Latin-1 byte conversions in
  `Names`; code units are not decoded into Unicode scalar values.
- Names.DecodeUnicode: drops the offset parameter, which every call passes
  as 0.
- CffDict.WriteObjectCff / CffBuild.BuildCff: CFF reals are kept as the
  nibble text read and written back from that text, not through `double`.
  The source parses the text (`double.Parse`, OpenTypeFont.cs:411) and
  writes `ToString()` of the double (1627). So the model does not
  capture three things:
  - the normalised text the source writes: ".5" comes out as "0.5";
  - the "Bad number" the source throws on the "E+" form `ToString` gives
    large values (1E20 becomes "1E+20", rejected at 1651-1663);
  - the "private dict writing error" (1564-1566) the source throws when
    normalisation lengthens a private DICT. `PrivateOut` succeeds there.
- CffBuild.TopShape: requires the PRIVATE size to be an integer operand.
  The source's `Convert.ToInt32` (246) also accepts a real and rounds it.
- CffToken.ReadObject: a real number whose nibbles run past the end of the
  font fails with END_ERROR. The source's loop (398-409) would keep
  re-reading the stale buffer byte and may never end.
- CffBuildFacts.CffPatchesRead: assumes a font with a private DICT has the
  PRIVATE key in its top DICT, which the CFF reader guarantees.

## Findings

| source | as written | input that shows it | evidently intended | confidence | as-written member | corrected member |
|---|---|---|---|---|---|---|
| OpenTypeFont/OpenTypeFont.cs:613 | `(short)(idRangeOffset[i] / 2)` halves the signed short, so an idRangeOffset of 0x8000 or more gives a negative rangeOffset and a negative glyph-array index; `BuildCMap` itself writes such an offset once its subtable reaches 0x8000 bytes, and below that size the two readings agree (CMapRoundTrip.CMapAsWrittenAgrees) | one segment {5..5}, idDelta 0, idRangeOffset 0x8000, followed by 0x4000 glyph-array entries all 7: code 5 should map to glyph 7, but the source computes index −0x4000 and throws | halve the unsigned 16-bit idRangeOffset, as the 'cmap' format 4 definition reads it | not executed | CMapDecode.FarOffsetAsWritten | CMapDecode.HalfOffset |
| OpenTypeFont/OpenTypeFont.cs:1806-1834 | `WriteIndexCFF` stores each item's end in `offsets[i + 1]` but never increments `i`, so every item overwrites `offsets[1]` and the later offsets stay 0 | the INDEX ["a", "b"] is written with the offsets 1, 3, 0, and reading it back fails on a negative length | `offsets[i + 1]` for the i-th item, then `i++` | not executed | CffIndexFacts.TwoNamesAsWritten, CffIndexFacts.TwoNamesRead | CffIndexFacts.CorrectedNamesRoundTrip |
| OpenTypeFont/OpenTypeFont.cs:1797-1858 | an empty INDEX is still written with an offSize and one offset after its zero count | an empty Global Subr INDEX becomes 0, 0, 1, 1; the reader takes only the count 0, 0 and reads the next structure from the two stray bytes | an empty INDEX is its two-byte count alone, as the CFF format defines it | not executed | CffIndexFacts.EmptyIndexAsWritten, CffIndexFacts.EmptyIndexRead | CffIndexFacts.CorrectedNamesRoundTrip |
| OpenTypeFont/OpenTypeFont.cs:1963 | `SweepDictCFF` accepts a SID only when the DICT holds it as an `int`, but `ReadObjectCFF` boxes an operand-28 value as a `short` (line 442), so a SID written with operand 28 makes the sweep throw | a font with 810 strings whose FullName SID 1200 is stored with operand 28 | accept any integer operand as a SID | not executed | CffStrings.ShortSidAsWritten | CffStrings.ShortSidCorrected |
| OpenTypeFont/OpenTypeFont.cs:1651-1663 | `WriteObjectCFF` writes nibble 0xB for "E-" and 0xC for "E", the reverse of the CFF real encoding that `decodeNibbleCFF` reads | "1E-5" is written as 1, 0xB, 5 and reads back as "1E5"; "1E5" reads back as "1E-5" | 0xB for "E", 0xC for "E-" | not executed | CffToken.ExponentSwapped | CffToken.CorrectedRealRoundTrip |
| OpenTypeFont/OpenTypeFont.cs:1268 | `BuildGlyphLocations` halves the offset in the long format too, where 'loca' stores byte offsets whole | one kept glyph of 4 bytes gets the long entries 0 and 2, so a reader finds a glyph of 2 bytes | write the offset itself in the long format (Loca.BuildGlyphLocations computes CorrectedLocations) | not executed | Loca.LongLocaAsWritten | Loca.LongLocaCorrected |
| OpenTypeFont/OpenTypeFont.cs:1299 | `BuildNames` sizes the name buffer by the record's `Offset` instead of its `Length`, so a name longer than its offset overflows the buffer and the read throws | the record NameEntry(3, 1, 0x409, 1, length 6, offset 4) | `new byte[entry.Length]` | not executed | Names.NameBufferTooSmall | Names.NameBufferAgrees |
