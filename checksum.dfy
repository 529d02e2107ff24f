/**
 * OpenType table checksums (OpenTypeFont.CalculateTableCheckSum) and the
 * 'head' checkSumAdjustment fix-up of OpenTypeFont.WriteTables, following the
 * "Calculating Checksums" section of the OpenType specification: a checksum
 * is the sum, modulo 2^32, of the table read as big-endian 32-bit words, a
 * trailing partial word being padded with zero bytes on its low side.
 */
module Checksum {
  import opened BigEndian

  /** The magic constant the whole-file checksum must equal once checkSumAdjustment is in place. */
  const CHECKSUM_MAGIC: int := 0xB1B0AFBA

  function Zeros(n: nat): (r: seq<byte>)
    ensures |r| == n && forall i :: 0 <= i < n ==> r[i] == 0
  {
    seq(n, _ => 0)
  }

  /** s followed by the zero bytes that complete its last 32-bit word. */
  function PadTo4(s: seq<byte>): (r: seq<byte>)
    ensures |r| % 4 == 0 && |s| <= |r| < |s| + 4 && r[..|s|] == s
  {
    s + Zeros((4 - |s| % 4) % 4)
  }

  /** The unbounded sum of the big-endian 32-bit words of s. */
  function WordSum(s: seq<byte>): int
    requires |s| % 4 == 0
    decreases |s|
  {
    if s == [] then 0 else WordSum(s[..|s| - 4]) + Unsigned(s[|s| - 4..])
  }

  /** The checksum of a table as an unsigned 32-bit value. */
  function CheckSum(s: seq<byte>): int
  {
    WordSum(PadTo4(s)) % TWO_32
  }

  /** The checksum as CalculateTableCheckSum returns it: the same 32 bits, read as a signed int. */
  function TableCheckSum(s: seq<byte>): (r: int)
    ensures IsInt32(r) && r % TWO_32 == CheckSum(s)
  {
    var n := WordSum(PadTo4(s));
    CongruentRemainder(ToInt32(n), n, TWO_32);
    ToInt32(n)
  }

  lemma {:induction false} WordSumAppend(a: seq<byte>, b: seq<byte>)
    requires |a| % 4 == 0 && |b| % 4 == 0
    ensures WordSum(a + b) == WordSum(a) + WordSum(b)
    decreases |b|
  {
    if b != [] {
      var b' := b[..|b| - 4];
      assert (a + b)[..|a + b| - 4] == a + b';
      assert (a + b)[|a + b| - 4..] == b[|b| - 4..];
      WordSumAppend(a, b');
    } else {
      assert a + b == a;
    }
  }

  lemma WordSumOfWord(w: seq<byte>)
    requires |w| == 4
    ensures WordSum(w) == Unsigned(w)
  {
    assert w[..0] == [];
  }

  /** Appending n zero bytes multiplies the big-endian value by 256^n. */
  lemma {:induction false} UnsignedAppendZeros(s: seq<byte>, n: nat)
    ensures Unsigned(s + Zeros(n)) == Unsigned(s) * Pow256(n)
    decreases n
  {
    if n > 0 {
      var t := s + Zeros(n);
      assert t[..|t| - 1] == s + Zeros(n - 1);
      UnsignedAppendZeros(s, n - 1);
      assert t[|t| - 1] == 0;
      assert Unsigned(t) == Unsigned(s + Zeros(n - 1)) * 256;
      MulShift(Unsigned(s), Pow256(n - 1));
    } else {
      assert s + Zeros(n) == s;
    }
  }

  lemma MulShift(u: int, p: int)
    ensures (u * p) * 256 == u * (256 * p)
  {
  }

  lemma UnsignedZeros(n: nat)
    ensures Unsigned(Zeros(n)) == 0
  {
    UnsignedAppendZeros([], n);
    assert [] + Zeros(n) == Zeros(n);
  }

  /** One more whole word extends the running word sum. */
  lemma WordStep(content: seq<byte>, i: nat)
    requires (i + 1) * 4 <= |content|
    ensures WordSum(content[..(i + 1) * 4]) == WordSum(content[..i * 4]) + Unsigned(content[i * 4..i * 4 + 4])
  {
    assert content[..(i + 1) * 4][..i * 4] == content[..i * 4];
    assert content[..(i + 1) * 4][i * 4..] == content[i * 4..i * 4 + 4];
  }

  /** One more trailing byte, shifted into place. */
  lemma TailStep(tail: seq<byte>, b: byte, k: nat)
    ensures Unsigned(tail + [b]) * Pow256(k) == Unsigned(tail) * Pow256(k + 1) + b * Pow256(k)
  {
    assert (tail + [b])[..|tail|] == tail;
    var u := Unsigned(tail);
    var p := Pow256(k);
    assert Pow256(k + 1) == 256 * p;
    assert (u * 256 + b) * p == u * (256 * p) + b * p;
  }

  /** Padding a non-empty partial word after whole words completes that word with zeros. */
  lemma PadOfPartial(whole: seq<byte>, tail: seq<byte>)
    requires |whole| % 4 == 0 && 0 < |tail| < 4
    ensures PadTo4(whole + tail) == whole + (tail + Zeros(4 - |tail|))
  {
    var n := |whole + tail|;
    var pad := 4 - |tail|;
    assert n % 4 == |tail| by {
      DivModUnique(n, 4, |whole| / 4, |tail|);
    }
    assert pad % 4 == pad by {
      DivModUnique(pad, 4, 0, pad);
    }
    assert PadTo4(whole + tail) == (whole + tail) + Zeros(pad);
  }

  /** A non-empty partial word, padded, is one word whose value is the bytes shifted left. */
  lemma PaddedLastWord(whole: seq<byte>, tail: seq<byte>)
    requires |whole| % 4 == 0 && 0 < |tail| < 4
    ensures WordSum(PadTo4(whole + tail)) == WordSum(whole) + Unsigned(tail) * Pow256(4 - |tail|)
  {
    var word := tail + Zeros(4 - |tail|);
    PadOfPartial(whole, tail);
    UnsignedAppendZeros(tail, 4 - |tail|);
    WordSumOfWord(word);
    WordSumAppend(whole, word);
  }

  /** A padded sequence splits into its whole words and its left-aligned last word. */
  lemma PaddedSplit(content: seq<byte>, wordCount: int)
    requires wordCount == |content| / 4
    ensures WordSum(PadTo4(content)) == WordSum(content[..wordCount * 4])
        + Unsigned(content[wordCount * 4..]) * Pow256(4 - (|content| - wordCount * 4))
  {
    var w := wordCount * 4;
    var whole := content[..w];
    var tail := content[w..];
    assert content == whole + tail;
    if tail == [] {
      assert PadTo4(content) == whole + [];
    } else {
      PaddedLastWord(whole, tail);
    }
  }

  lemma CongruentRemainder(a: int, b: int, m: int)
    requires m > 0 && (a - b) % m == 0
    ensures a % m == b % m
  {
    var t := (a - b) / m;
    assert a - b == m * t;
    assert b == m * (b / m) + b % m;
    assert m * (b / m + t) == m * (b / m) + m * t;
    DivModUnique(a, m, b / m + t, b % m);
  }

  lemma ModAdd(x: int, y: int, m: int)
    requires m > 0 && x % m == 0 && y % m == 0
    ensures (x + y) % m == 0
  {
    assert x == m * (x / m);
    assert y == m * (y / m);
    assert x + y == m * (x / m + y / m);
    DivModUnique(x + y, m, x / m + y / m, 0);
  }

  /** Adding to a wrapped 32-bit accumulator agrees with wrapping the unbounded sum. */
  lemma WrapAdd(acc: int, g: int, u: int)
    requires (g - u) % TWO_32 == 0
    ensures ToInt32(ToInt32(acc) + g) == ToInt32(acc + u)
  {
    var l := ToInt32(ToInt32(acc) + g);
    var r := ToInt32(acc + u);
    ModAdd(l - (ToInt32(acc) + g), ToInt32(acc) - acc, TWO_32);
    ModAdd(l - (acc + g), g - u, TWO_32);
    ToInt32Unique(l, acc + u);
  }

  /** One iteration of the word loop of CalculateTableCheckSum. */
  lemma WordLoopStep(content: seq<byte>, i: nat, sum: int, acc: int, g: int, next: int)
    requires (i + 1) * 4 <= |content|
    requires sum == WordSum(content[..i * 4]) && acc == ToInt32(sum)
    requires g % TWO_32 == Unsigned(content[i * 4..i * 4 + 4])
    requires next == sum + Unsigned(content[i * 4..i * 4 + 4])
    ensures ToInt32(acc + g) == ToInt32(next)
    ensures next == WordSum(content[..(i + 1) * 4])
  {
    var u := Unsigned(content[i * 4..i * 4 + 4]);
    assert (g - u) % TWO_32 == 0 by {
      assert u % TWO_32 == u by {
        DivModUnique(u, TWO_32, 0, u);
      }
      SameRemainder(g, u, TWO_32);
    }
    WrapAdd(sum, g, u);
    WordStep(content, i);
  }

  /**
   * OpenTypeFont.CalculateTableCheckSum: sums the whole words with 32-bit
   * wrap-around, then adds the trailing bytes shifted left by 24, 16 and 8.
   * The result is the signed view of CheckSum(content).
   */
  method CalculateTableCheckSum(content: seq<byte>) returns (result: int)
    ensures result == TableCheckSum(content)
  {
    var wordCount := |content| / 4;
    WholeWords(|content|);
    result := SumWords(content, wordCount);
    var start := wordCount * 4;
    ghost var before := WordSum(content[..start]);
    result := SumTail(content, start, result, before);
    ghost var shift := 3 - (|content| - start);
    TailDone(content, wordCount, shift, before, before + Unsigned(content[start..]) * Pow256(shift + 1), result);
  }

  /** The first loop of CalculateTableCheckSum: the first wordCount words, added with wrap-around. */
  method SumWords(content: seq<byte>, wordCount: nat) returns (result: int)
    requires wordCount * 4 <= |content|
    ensures result == ToInt32(WordSum(content[..wordCount * 4]))
  {
    result := 0;
    ghost var sum := 0;
    var i := 0;
    while i < wordCount
      invariant 0 <= i <= wordCount
      invariant sum == WordSum(content[..i * 4])
      invariant result == ToInt32(sum)
    {
      var word := GetInt(content, i * 4);
      ghost var next := sum + Unsigned(content[i * 4..i * 4 + 4]);
      WordLoopStep(content, i, sum, result, word, next);
      result := ToInt32(result + word);
      sum := next;
      i := i + 1;
    }
  }

  /**
   * The second loop of CalculateTableCheckSum: the bytes after the last
   * whole word (at most three), the first shifted left by 24, the next by
   * 16, the next by 8, added to acc, the wrapped value of before.
   */
  method SumTail(content: seq<byte>, start: nat, acc: int, ghost before: int) returns (result: int)
    requires start <= |content| < start + 4 && acc == ToInt32(before)
    ensures result == ToInt32(before + Unsigned(content[start..]) * Pow256(4 - (|content| - start)))
  {
    result := acc;
    var offset := 24;
    ghost var shift: nat := 3;
    ghost var sum := before;
    assert content[start..start] == [];
    var i := start;
    while i < |content|
      invariant start <= i <= |content|
      invariant shift == 3 - (i - start) && offset == 8 * shift
      invariant sum == before + Unsigned(content[start..i]) * Pow256(shift + 1)
      invariant result == ToInt32(sum)
    {
      ghost var next := sum + content[i] * Pow256(shift);
      TailLoopStep(content, start, i, shift, offset, before, sum, result, next);
      result := ToInt32(result + ByteShift(content[i], offset));
      sum := next;
      offset := offset - 8;
      shift := shift - 1;
      i := i + 1;
    }
    assert content[start..i] == content[start..];
  }

  /** One iteration of the trailing-byte loop of CalculateTableCheckSum. */
  lemma TailLoopStep(content: seq<byte>, start: nat, i: nat, shift: nat, offset: int, before: int, sum: int, acc: int, next: int)
    requires start <= i < |content| && shift <= 3 && offset == 8 * shift
    requires sum == before + Unsigned(content[start..i]) * Pow256(shift + 1)
    requires acc == ToInt32(sum)
    requires next == sum + content[i] * Pow256(shift)
    ensures ToInt32(acc + ByteShift(content[i], offset)) == ToInt32(next)
    ensures next == before + Unsigned(content[start..i + 1]) * Pow256(shift)
  {
    var tail := content[start..i];
    assert content[start..i + 1] == tail + [content[i]];
    TailStep(tail, content[i], shift);
    DivModUnique(8 * shift, 8, shift, 0);
    var b := content[i] * Pow256(shift);
    WrapAdd(sum, b, b);
  }

  /** The whole words of an n-byte table end at a multiple of 4 at most 3 bytes before its end. */
  lemma WholeWords(n: nat)
    ensures (n / 4) * 4 <= n < (n / 4) * 4 + 4
    ensures ((n / 4) * 4) % 4 == 0
  {
    DivModUnique((n / 4) * 4, 4, n / 4, 0);
  }

  /** After both loops of CalculateTableCheckSum the accumulator is the wrapped padded word sum. */
  lemma TailDone(content: seq<byte>, wordCount: nat, shift: nat, before: int, sum: int, result: int)
    requires wordCount == |content| / 4
    requires shift == 3 - (|content| - wordCount * 4)
    requires before == WordSum(content[..wordCount * 4])
    requires sum == before + Unsigned(content[wordCount * 4..]) * Pow256(shift + 1)
    requires result == ToInt32(sum)
    ensures result == ToInt32(WordSum(PadTo4(content)))
    ensures result % TWO_32 == CheckSum(content)
  {
    PaddedSplit(content, wordCount);
    CongruentRemainder(result, WordSum(PadTo4(content)), TWO_32);
  }

  /** The C# expression `(b & 0xFF) << bits` for a byte b and bits in {0, 8, 16, 24}. */
  function ByteShift(b: byte, bits: int): (r: int)
    requires bits in {0, 8, 16, 24}
    ensures r == b * Pow256(bits / 8)
  {
    Pow256Values();
    if bits == 0 then b
    else if bits == 8 then b * 0x100
    else if bits == 16 then b * 0x1_0000
    else b * 0x100_0000
  }

  /** Padding after a whole number of words only pads what follows them. */
  lemma PadAfterAligned(x: seq<byte>, c: seq<byte>)
    requires |x| % 4 == 0
    ensures PadTo4(x + c) == x + PadTo4(c)
  {
    assert |x + c| % 4 == |c| % 4 by {
      assert |c| == 4 * (|c| / 4) + |c| % 4;
      assert |x| == 4 * (|x| / 4);
      assert |x + c| == 4 * (|x| / 4 + |c| / 4) + |c| % 4;
      DivModUnique(|x + c|, 4, |x| / 4 + |c| / 4, |c| % 4);
    }
    var z := Zeros((4 - |c| % 4) % 4);
    assert (x + c) + z == x + (c + z);
  }

  /** The padded word sum of a + w + c, with a whole words and w one word, splits in three. */
  lemma WordSumReplace(a: seq<byte>, w: seq<byte>, c: seq<byte>)
    requires |a| % 4 == 0 && |w| == 4
    ensures WordSum(PadTo4(a + w + c)) == WordSum(a) + Unsigned(w) + WordSum(PadTo4(c))
  {
    var aw := a + w;
    assert |aw| % 4 == 0 by {
      DivModUnique(|aw|, 4, |a| / 4 + 1, 0);
    }
    PadAfterAligned(aw, c);
    WordSumOfWord(w);
    WordSumAppend(a, w);
    WordSumAppend(aw, PadTo4(c));
  }

  /**
   * The checkSumAdjustment fix-up: in a file whose 4-aligned word at index is
   * zero, storing ToInt32(0xB1B0AFBA - total) there (total being the file's
   * checksum as CalculateTableCheckSum returns it) makes the checksum of the
   * whole file 0xB1B0AFBA.
   */
  lemma ChecksumAdjustment(file: seq<byte>, index: int, total: int)
    requires 0 <= index && index % 4 == 0 && index + 4 <= |file|
    requires file[index..index + 4] == [0, 0, 0, 0]
    requires total % TWO_32 == CheckSum(file)
    ensures CheckSum(file[..index] + IntBytes(ToInt32(CHECKSUM_MAGIC - total)) + file[index + 4..]) == CHECKSUM_MAGIC
  {
    var a := file[..index];
    var c := file[index + 4..];
    var adj := ToInt32(CHECKSUM_MAGIC - total);
    assert file == a + file[index..index + 4] + c;
    WordSumReplace(a, file[index..index + 4], c);
    assert Unsigned(file[index..index + 4]) == 0 by {
      assert file[index..index + 4] == Zeros(4);
      UnsignedZeros(4);
    }
    WordSumReplace(a, IntBytes(adj), c);
    IntBytesPacking(adj);
    UnsignedOfBytesOf(adj, 4);
    Pow256Values();
    var before := WordSum(PadTo4(file));
    var after := WordSum(PadTo4(a + IntBytes(adj) + c));
    assert after == before + adj % TWO_32;
    SameRemainder(before, total, TWO_32);
    AdjustmentArithmetic(before, total, after);
  }

  /** The arithmetic of the fix-up: adding (MAGIC - total) mod 2^32 to a sum congruent to total. */
  lemma AdjustmentArithmetic(before: int, total: int, after: int)
    requires (before - total) % TWO_32 == 0
    requires after == before + ToInt32(CHECKSUM_MAGIC - total) % TWO_32
    ensures after % TWO_32 == CHECKSUM_MAGIC
  {
    var adj := ToInt32(CHECKSUM_MAGIC - total);
    assert (adj % TWO_32 - adj) % TWO_32 == 0 by {
      DivModUnique(adj % TWO_32 - adj, TWO_32, -(adj / TWO_32), 0);
    }
    var x := before - total;
    var y := adj % TWO_32 - adj;
    var z := adj - (CHECKSUM_MAGIC - total);
    assert after - CHECKSUM_MAGIC == x + y + z;
    ModAdd(x, y, TWO_32);
    ModAdd(x + y, z, TWO_32);
    DivModUnique(after, TWO_32, (after - CHECKSUM_MAGIC) / TWO_32, CHECKSUM_MAGIC);
  }
}
