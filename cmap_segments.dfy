/**
 * The first half of OpenTypeFont.BuildCMap: which code points the subset
 * maps, how they are cut into format 4 segments, and the glyph ids each
 * segment carries ("Format 4: Segment mapping to delta values" of the
 * OpenType 'cmap' table).
 */
module CMapSegments {
  import opened BigEndian
  import opened Outcome
  import opened Records

  /** The message of the KeyNotFoundException a Dictionary indexer throws. */
  const KEY_NOT_FOUND: string := "The given key was not present in the dictionary."
  /** The message of the ArgumentOutOfRangeException a List indexer throws. */
  const INDEX_OUT_OF_RANGE: string := "Index was out of range. Must be non-negative and less than the size of the collection."
  /** The message BuildCMap throws when the format 4 subtable would not fit its 16-bit length field. */
  const CMAP_TOO_LONG: string := "cmap is too long"

  /** The code points the text uses. */
  function NeededCodes(chars: map<int, CharacterData>): set<int>
  {
    set ch | ch in chars && chars[ch].needed
  }

  /**
   * BuildCMap's first loop: the needed code points, and the largest of them,
   * or 0 when none is positive.
   */
  method CollectNeeded(chars: map<int, CharacterData>) returns (mask: set<int>, maxChar: int)
    ensures mask == NeededCodes(chars)
    ensures maxChar >= 0 && (maxChar == 0 || maxChar in mask)
    ensures forall ch | ch in mask :: ch <= maxChar
  {
    mask := {};
    maxChar := 0;
    var keys := chars.Keys;
    while keys != {}
      invariant keys <= chars.Keys
      invariant mask == set ch | ch in chars.Keys - keys && chars[ch].needed
      invariant maxChar >= 0 && (maxChar == 0 || maxChar in mask)
      invariant forall ch | ch in mask :: ch <= maxChar
      decreases keys
    {
      NonEmpty(keys);
      var code :| code in keys;
      if chars[code].needed {
        mask := mask + {code};
        if code > maxChar {
          maxChar := code;
        }
      }
      keys := keys - {code};
    }
  }

  /** A non-empty set has an element, the key a Dictionary enumeration yields next. */
  lemma NonEmpty(s: set<int>)
    requires s != {}
    ensures exists x :: x in s
  {
    if forall x :: x !in s {
      assert false;
    }
  }

  /** A segment's code point range, start and end included. */
  datatype Range = Range(start: int, end: int)

  /** The maximal runs of consecutive code points of mask within 1..n, in increasing order. */
  function Runs(mask: set<int>, n: int): (r: seq<Range>)
    ensures |r| > 0 ==> r[|r| - 1].end <= n
    ensures n >= 1 && n in mask ==> |r| > 0 && r[|r| - 1].end == n
    decreases n
  {
    if n < 1 then []
    else
      var prev := Runs(mask, n - 1);
      if n !in mask then prev
      else if n - 1 >= 1 && n - 1 in mask then prev[..|prev| - 1] + [Range(prev[|prev| - 1].start, n)]
      else prev + [Range(n, n)]
  }

  /** The segment list while BuildCMap scans: a still-open last segment is closed at e. */
  function Closed(segs: seq<Range>, open: bool, e: int): seq<Range>
    requires open ==> |segs| > 0
  {
    if open then segs[..|segs| - 1] + [Range(segs[|segs| - 1].start, e)] else segs
  }

  /** The segments BuildCMap lays out: the runs of needed code points, then the terminating 0xFFFF segment. */
  function SegmentRanges(mask: set<int>, maxChar: int): seq<Range>
  {
    Runs(mask, maxChar) + (if maxChar < 0xFFFF then [Range(0xFFFF, 0xFFFF)] else [])
  }

  /**
   * BuildCMap's second loop: code points 1 to maxChar open a segment at the
   * first needed one and close it at the first one not needed.  A new
   * segment's end is not set until it is closed (C# leaves it 0).
   */
  method CollectRanges(mask: set<int>, maxChar: int) returns (segs: seq<Range>)
    ensures segs == SegmentRanges(mask, maxChar)
  {
    segs := [];
    var open := false;
    var ch := 1;
    while ch <= maxChar
      invariant 1 <= ch <= (if maxChar >= 1 then maxChar + 1 else 1)
      invariant open == (ch - 1 >= 1 && ch - 1 in mask)
      invariant open ==> |segs| > 0
      invariant Closed(segs, open, ch - 1) == Runs(mask, ch - 1)
    {
      if ch in mask {
        if !open {
          segs := segs + [Range(ch, 0)];
          open := true;
        }
      } else {
        if open {
          segs := segs[|segs| - 1 := Range(segs[|segs| - 1].start, ch - 1)];
          open := false;
        }
      }
      ch := ch + 1;
    }
    assert Closed(segs, open, maxChar) == Runs(mask, maxChar) by {
      if maxChar < 1 {
        assert ch == 1 && !open;
      }
    }
    if open {
      segs := segs[|segs| - 1 := Range(segs[|segs| - 1].start, maxChar)];
    }
    assert segs == Runs(mask, maxChar);
    if maxChar < 0xFFFF {
      segs := segs + [Range(0xFFFF, 0xFFFF)];
    }
  }

  /** Every run lies in 1..n and can be extended neither down nor up within 1..n. */
  ghost predicate Unextendable(rs: seq<Range>, mask: set<int>, n: int)
  {
    forall i | 0 <= i < |rs| ::
      1 <= rs[i].start <= rs[i].end <= n &&
      (rs[i].start == 1 || rs[i].start - 1 !in mask) &&
      (rs[i].end == n || rs[i].end + 1 !in mask)
  }

  /** The runs are increasing, with at least one missing code point between neighbours. */
  ghost predicate Separated(rs: seq<Range>)
  {
    forall i, j | 0 <= i < j < |rs| :: rs[i].end + 1 < rs[j].start
  }

  /** Every code point of every run is in mask. */
  ghost predicate WithinMask(rs: seq<Range>, mask: set<int>)
  {
    forall i, c | 0 <= i < |rs| && rs[i].start <= c <= rs[i].end :: c in mask
  }

  /** Every code point of mask in 1..n lies in some run. */
  ghost predicate Covers(rs: seq<Range>, mask: set<int>, n: int)
  {
    forall c | 1 <= c <= n && c in mask :: exists i :: 0 <= i < |rs| && rs[i].start <= c <= rs[i].end
  }

  /** rs are the maximal runs of the code points of mask within 1..n. */
  ghost predicate MaximalRuns(rs: seq<Range>, mask: set<int>, n: int)
  {
    Unextendable(rs, mask, n) && Separated(rs) && WithinMask(rs, mask) && Covers(rs, mask, n)
  }

  /** The segments BuildCMap collects are exactly the maximal runs of needed code points. */
  lemma {:induction false} RunsMaximal(mask: set<int>, n: int)
    ensures MaximalRuns(Runs(mask, n), mask, n)
    decreases n
  {
    if n >= 1 {
      RunsMaximal(mask, n - 1);
      var prev := Runs(mask, n - 1);
      if n !in mask {
        SkipCode(prev, mask, n);
      } else if n - 1 >= 1 && n - 1 in mask {
        ExtendStep(prev, mask, n);
      } else {
        NewRunStep(prev, mask, n);
      }
    }
  }

  lemma ExtendStep(prev: seq<Range>, mask: set<int>, n: int)
    requires MaximalRuns(prev, mask, n - 1) && n - 1 >= 1 && n - 1 in mask && n in mask
    requires |prev| > 0 && prev[|prev| - 1].end == n - 1
    ensures MaximalRuns(prev[..|prev| - 1] + [Range(prev[|prev| - 1].start, n)], mask, n)
  {
    var k := |prev| - 1;
    var rs := prev[..k] + [Range(prev[k].start, n)];
    assert Grown(prev, rs, n) by {
      assert forall i | 0 <= i < k :: rs[i] == prev[i];
    }
    ExtendUnextendable(prev, rs, mask, n);
    ExtendSeparated(prev, rs, n);
    ExtendWithinMask(prev, rs, mask, n);
    GrownCovers(prev, rs, mask, n);
  }

  lemma NewRunStep(prev: seq<Range>, mask: set<int>, n: int)
    requires MaximalRuns(prev, mask, n - 1) && n >= 1 && n in mask
    requires n - 1 < 1 || n - 1 !in mask
    ensures MaximalRuns(prev + [Range(n, n)], mask, n)
  {
    var rs := prev + [Range(n, n)];
    assert forall i | 0 <= i < |prev| :: rs[i] == prev[i];
    NewRunFacts(prev, rs, mask, n);
    GrownCovers(prev, rs, mask, n);
  }

  lemma SkipCode(prev: seq<Range>, mask: set<int>, n: int)
    requires MaximalRuns(prev, mask, n - 1) && n !in mask
    ensures MaximalRuns(prev, mask, n)
  {
  }

  /** rs is prev with its last run extended to n. */
  ghost predicate Grown(prev: seq<Range>, rs: seq<Range>, n: int)
  {
    |rs| == |prev| > 0 &&
    (forall i | 0 <= i < |prev| - 1 :: rs[i] == prev[i]) &&
    rs[|prev| - 1] == Range(prev[|prev| - 1].start, n)
  }

  lemma ExtendUnextendable(prev: seq<Range>, rs: seq<Range>, mask: set<int>, n: int)
    requires Unextendable(prev, mask, n - 1) && Separated(prev) && Grown(prev, rs, n) && n in mask
    requires prev[|prev| - 1].end == n - 1
    ensures Unextendable(rs, mask, n)
  {
    forall i | 0 <= i < |rs|
      ensures 1 <= rs[i].start <= rs[i].end <= n
      ensures rs[i].start == 1 || rs[i].start - 1 !in mask
      ensures rs[i].end == n || rs[i].end + 1 !in mask
    {
      if i < |prev| - 1 {
        assert rs[i] == prev[i];
        assert prev[i].end + 1 < prev[|prev| - 1].start;
      }
    }
  }

  lemma ExtendSeparated(prev: seq<Range>, rs: seq<Range>, n: int)
    requires Separated(prev) && Grown(prev, rs, n)
    ensures Separated(rs)
  {
    forall i, j | 0 <= i < j < |rs|
      ensures rs[i].end + 1 < rs[j].start
    {
      assert rs[i] == prev[i];
      assert rs[j].start == prev[j].start;
    }
  }

  lemma ExtendWithinMask(prev: seq<Range>, rs: seq<Range>, mask: set<int>, n: int)
    requires WithinMask(prev, mask) && Grown(prev, rs, n) && n in mask
    requires prev[|prev| - 1].end == n - 1
    ensures WithinMask(rs, mask)
  {
    var k := |prev| - 1;
    forall i, c | 0 <= i < |rs| && rs[i].start <= c <= rs[i].end
      ensures c in mask
    {
      if i < k {
        assert rs[i] == prev[i];
      } else if c < n {
        assert prev[k].start <= c <= prev[k].end;
      }
    }
  }

  /** Growing the run list to reach n keeps every earlier run and covers n. */
  lemma GrownCovers(prev: seq<Range>, rs: seq<Range>, mask: set<int>, n: int)
    requires Covers(prev, mask, n - 1)
    requires |prev| <= |rs| && |rs| > 0 && rs[|rs| - 1].start <= n == rs[|rs| - 1].end
    requires forall i | 0 <= i < |prev| :: rs[i].start <= prev[i].start && prev[i].end <= rs[i].end
    ensures Covers(rs, mask, n)
  {
    forall c | 1 <= c <= n && c in mask
      ensures exists i :: 0 <= i < |rs| && rs[i].start <= c <= rs[i].end
    {
      if c == n {
        assert rs[|rs| - 1].start <= c <= rs[|rs| - 1].end;
      } else {
        var i :| 0 <= i < |prev| && prev[i].start <= c <= prev[i].end;
        assert rs[i].start <= c <= rs[i].end;
      }
    }
  }

  lemma NewRunFacts(prev: seq<Range>, rs: seq<Range>, mask: set<int>, n: int)
    requires Unextendable(prev, mask, n - 1) && Separated(prev) && WithinMask(prev, mask)
    requires n >= 1 && n in mask && (n - 1 < 1 || n - 1 !in mask)
    requires |rs| == |prev| + 1 && rs[|prev|] == Range(n, n)
    requires forall i | 0 <= i < |prev| :: rs[i] == prev[i]
    ensures Unextendable(rs, mask, n) && Separated(rs) && WithinMask(rs, mask)
  {
    var k := |prev|;
    forall i | 0 <= i < k
      ensures prev[i].end + 1 < n
    {
      assert prev[i].end <= n - 1;
      if prev[i].end == n - 1 {
        assert false;
      }
    }
    forall i | 0 <= i < |rs|
      ensures 1 <= rs[i].start <= rs[i].end <= n
      ensures rs[i].start == 1 || rs[i].start - 1 !in mask
      ensures rs[i].end == n || rs[i].end + 1 !in mask
    {
      if i < k {
        assert rs[i] == prev[i];
      }
    }
    forall i, j | 0 <= i < j < |rs|
      ensures rs[i].end + 1 < rs[j].start
    {
      assert rs[i] == prev[i];
      if j < k {
        assert rs[j] == prev[j];
      }
    }
    forall i, c | 0 <= i < |rs| && rs[i].start <= c <= rs[i].end
      ensures c in mask
    {
      if i < k {
        assert rs[i] == prev[i];
      }
    }
  }

}
