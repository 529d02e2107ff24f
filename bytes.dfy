/**
 * Big-endian integer packing over byte buffers (OpenTypeFont/IOUtils.cs and
 * the duplicate GetInt / SetIntAtIndex helpers of OpenTypeFont).
 *
 * C# integers are fixed width; here every integer is unbounded and the
 * narrowing casts of the source, `(short)`, `(int)` and `(byte)`, are
 * written out as ToInt16, ToInt32 and `% 256`.  An arithmetic right shift
 * `n >> 8k` is floor division by 256^k, which is what Dafny's `/` computes
 * for a positive divisor.
 */
module BigEndian {

  /** An unsigned 8-bit value (C# `byte`). */
  type byte = b: int | 0 <= b < 256

  const TWO_16: int := 0x1_0000
  const TWO_32: int := 0x1_0000_0000

  predicate IsInt16(n: int) { -0x8000 <= n < 0x8000 }
  predicate IsInt32(n: int) { -0x8000_0000 <= n < 0x8000_0000 }
  predicate IsInt64(n: int) { -0x8000_0000_0000_0000 <= n < 0x8000_0000_0000_0000 }

  /** 256 to the power k. */
  function Pow256(k: nat): (r: nat)
    ensures r > 0
  {
    if k == 0 then 1 else 256 * Pow256(k - 1)
  }

  lemma Pow256Values()
    ensures Pow256(1) == 0x100 && Pow256(2) == TWO_16
    ensures Pow256(3) == 0x100_0000 && Pow256(4) == TWO_32
    ensures Pow256(8) == 0x1_0000_0000_0000_0000
  {
    assert Pow256(1) == 256 * Pow256(0);
    assert Pow256(2) == 256 * Pow256(1);
    assert Pow256(3) == 256 * Pow256(2);
    assert Pow256(4) == 256 * Pow256(3);
    assert Pow256(5) == 256 * Pow256(4);
    assert Pow256(6) == 256 * Pow256(5);
    assert Pow256(7) == 256 * Pow256(6);
    assert Pow256(8) == 256 * Pow256(7);
  }

  /** The C# cast `(short)n`: the unique 16-bit value congruent to n modulo 2^16. */
  function ToInt16(n: int): (r: int)
    ensures IsInt16(r)
  {
    var m := n % TWO_16;
    if m < 0x8000 then m else m - TWO_16
  }

  /** The cast to short keeps n modulo 2^16. */
  lemma ToInt16Congruent(n: int)
    ensures (ToInt16(n) - n) % TWO_16 == 0
  {
  }

  /** The C# cast `(int)n` (unchecked): the unique 32-bit value congruent to n modulo 2^32. */
  function ToInt32(n: int): (r: int)
    ensures IsInt32(r)
  {
    var m := n % TWO_32;
    if m < 0x8000_0000 then m else m - TWO_32
  }

  /** The cast to int keeps n modulo 2^32. */
  lemma ToInt32Congruent(n: int)
    ensures (ToInt32(n) - n) % TWO_32 == 0
  {
  }

  lemma ToInt16Unique(a: int, n: int)
    requires IsInt16(a) && (a - n) % TWO_16 == 0
    ensures a == ToInt16(n)
  {
    var r := ToInt16(n);
    ToInt16Congruent(n);
    assert (a - r) % TWO_16 == 0;
  }

  lemma ToInt32Unique(a: int, n: int)
    requires IsInt32(a) && (a - n) % TWO_32 == 0
    ensures a == ToInt32(n)
  {
    var r := ToInt32(n);
    ToInt32Congruent(n);
    assert (a - r) % TWO_32 == 0;
  }

  /** The C# expression `(byte)(n >> (8 * k))`: byte number k of n, counting from the least significant. */
  function ByteAt(n: int, k: nat): byte
  {
    (n / Pow256(k)) % 256
  }

  /** The big-endian unsigned value of a byte string. */
  function Unsigned(s: seq<byte>): (r: nat)
    ensures r < Pow256(|s|)
  {
    if s == [] then 0 else Unsigned(s[..|s| - 1]) * 256 + s[|s| - 1]
  }

  /** The k low bytes of n, most significant first (the reference definition of big-endian packing). */
  function BytesOf(n: int, k: nat): (r: seq<byte>)
    ensures |r| == k
    decreases k
  {
    if k == 0 then [] else BytesOf(n / 256, k - 1) + [n % 256]
  }

  lemma MulAtLeast(d: int, x: int)
    requires d > 0 && x >= 1
    ensures d * x >= d
    decreases x
  {
    if x > 1 {
      MulAtLeast(d, x - 1);
      assert d * x == d * (x - 1) + d;
    }
  }

  /** Euclidean division is determined by quotient and remainder. */
  lemma DivModUnique(n: int, d: int, q: int, r: int)
    requires d > 0 && n == d * q + r && 0 <= r < d
    ensures n / d == q && n % d == r
  {
    var q0 := n / d;
    var r0 := n % d;
    assert n == d * q0 + r0;
    assert d * q - d * q0 == r0 - r;
    assert d * (q - q0) == d * q - d * q0;
    if q > q0 {
      MulAtLeast(d, q - q0);
    } else if q < q0 {
      assert d * (q0 - q) == d * q0 - d * q;
      MulAtLeast(d, q0 - q);
    }
  }

  /** Two numbers with the same remainder differ by a multiple of the modulus. */
  lemma SameRemainder(a: int, b: int, m: int)
    requires m > 0 && a % m == b % m
    ensures (a - b) % m == 0
  {
    assert a - b == m * (a / m) - m * (b / m);
    assert m * (a / m) - m * (b / m) == m * (a / m - b / m);
    DivModUnique(a - b, m, a / m - b / m, 0);
  }

  lemma ModSplit(n: int, m: nat)
    requires m > 0
    ensures n % (256 * m) == ((n / 256) % m) * 256 + n % 256
    ensures (n / 256) / m == n / (256 * m)
  {
    var q := n / 256;
    var r := n % 256;
    var qq := q / m;
    var qr := q % m;
    assert n == 256 * q + r;
    assert q == m * qq + qr;
    assert 256 * q == 256 * (m * qq) + 256 * qr;
    assert 256 * (m * qq) == (256 * m) * qq;
    assert n == (256 * m) * qq + (qr * 256 + r);
    assert 0 <= qr * 256 + r < 256 * m;
    DivModUnique(n, 256 * m, qq, qr * 256 + r);
  }

  /** Packing then reading back yields n modulo 256^k. */
  lemma {:induction false} UnsignedOfBytesOf(n: int, k: nat)
    ensures Unsigned(BytesOf(n, k)) == n % Pow256(k)
    decreases k
  {
    if k > 0 {
      var s := BytesOf(n, k);
      assert s[..k - 1] == BytesOf(n / 256, k - 1);
      UnsignedOfBytesOf(n / 256, k - 1);
      ModSplit(n, Pow256(k - 1));
    }
  }

  /** Reading a byte string and packing its value again gives the same bytes. */
  lemma {:induction false} BytesOfUnsigned(s: seq<byte>)
    ensures BytesOf(Unsigned(s), |s|) == s
  {
    if s != [] {
      var init := s[..|s| - 1];
      BytesOfUnsigned(init);
      var u := Unsigned(s);
      assert u / 256 == Unsigned(init);
      assert u % 256 == s[|s| - 1];
      assert s == init + [s[|s| - 1]];
    }
  }

  /** Packing depends only on n modulo 256^k. */
  lemma BytesOfCongruent(a: int, b: int, k: nat)
    requires (a - b) % Pow256(k) == 0
    ensures BytesOf(a, k) == BytesOf(b, k)
  {
    var p := Pow256(k);
    var t := (a - b) / p;
    assert a - b == p * t;
    assert b == p * (b / p) + b % p;
    assert p * (b / p + t) == p * (b / p) + p * t;
    DivModUnique(a, p, b / p + t, b % p);
    UnsignedOfBytesOf(a, k);
    UnsignedOfBytesOf(b, k);
    var sa := BytesOf(a, k);
    var sb := BytesOf(b, k);
    assert Unsigned(sa) == Unsigned(sb);
    BytesOfUnsigned(sa);
    BytesOfUnsigned(sb);
  }

  /** Element i of the packing is the byte the source extracts with a shift. */
  lemma {:induction false} BytesOfAt(n: int, k: nat, i: nat)
    requires i < k
    ensures BytesOf(n, k)[i] == ByteAt(n, k - 1 - i)
    decreases k
  {
    if i == k - 1 {
    } else {
      BytesOfAt(n / 256, k - 1, i);
      ModSplit(n, Pow256(k - 2 - i));
    }
  }

  /** The two bytes `WriteShort` emits: `(byte)(n >> 8)`, `(byte)n`. */
  function ShortBytes(n: int): (r: seq<byte>)
    ensures |r| == 2
  {
    [ByteAt(n, 1), ByteAt(n, 0)]
  }

  /** The four bytes `WriteInt` and `SetIntAtIndex` emit, most significant first. */
  function IntBytes(n: int): (r: seq<byte>)
    ensures |r| == 4
  {
    [ByteAt(n, 3), ByteAt(n, 2), ByteAt(n, 1), ByteAt(n, 0)]
  }

  /** The eight bytes `StuffLong` stores, most significant first. */
  function LongBytes(n: int): (r: seq<byte>)
    ensures |r| == 8
  {
    [ByteAt(n, 7), ByteAt(n, 6), ByteAt(n, 5), ByteAt(n, 4),
     ByteAt(n, 3), ByteAt(n, 2), ByteAt(n, 1), ByteAt(n, 0)]
  }

  /** The shift-and-truncate bytes of WriteShort are the big-endian packing of n. */
  lemma ShortBytesPacking(n: int)
    ensures ShortBytes(n) == BytesOf(n, 2)
  {
    BytesOfAt(n, 2, 0);
    BytesOfAt(n, 2, 1);
  }

  /** The shift-and-truncate bytes of WriteInt are the big-endian packing of n. */
  lemma IntBytesPacking(n: int)
    ensures IntBytes(n) == BytesOf(n, 4)
  {
    BytesOfAt(n, 4, 0);
    BytesOfAt(n, 4, 1);
    BytesOfAt(n, 4, 2);
    BytesOfAt(n, 4, 3);
  }

  /** The shift-and-truncate bytes of StuffLong are the big-endian packing of n. */
  lemma LongBytesPacking(n: int)
    ensures LongBytes(n) == BytesOf(n, 8)
  {
    forall i | 0 <= i < 8 ensures LongBytes(n)[i] == BytesOf(n, 8)[i] {
      BytesOfAt(n, 8, i);
    }
  }

  /**
   * IOUtils.GetShort: the signed 16-bit big-endian value at offset; masking
   * it with 0xFFFF (here: `% 0x1_0000`) gives the unsigned value.
   */
  function GetShort(buf: seq<byte>, offset: int): (r: int)
    requires 0 <= offset && offset + 2 <= |buf|
    ensures IsInt16(r) && r % TWO_16 == Unsigned(buf[offset..offset + 2])
  {
    var s := buf[offset..offset + 2];
    assert s[..1] == [buf[offset]];
    ToInt16(buf[offset] as int * 0x100 + buf[offset + 1])
  }

  /** IOUtils.GetInt (and OpenTypeFont.GetInt): the two's-complement 32-bit big-endian value at offset. */
  function GetInt(buf: seq<byte>, offset: int): (r: int)
    requires 0 <= offset && offset + 4 <= |buf|
    ensures IsInt32(r) && r % TWO_32 == Unsigned(buf[offset..offset + 4])
  {
    var s := buf[offset..offset + 4];
    assert Unsigned(s[..1]) == s[0] by { assert s[..1][..0] == []; }
    assert Unsigned(s[..2]) == Unsigned(s[..1]) * 256 + s[1] by { assert s[..2][..1] == s[..1]; }
    assert Unsigned(s[..3]) == Unsigned(s[..2]) * 256 + s[2] by { assert s[..3][..2] == s[..2]; }
    assert Unsigned(s) == Unsigned(s[..3]) * 256 + s[3];
    ToInt32(buf[offset] as int * 0x100_0000 + buf[offset + 1] as int * 0x1_0000 + buf[offset + 2] as int * 0x100 + buf[offset + 3])
  }

  /** Reading back what WriteShort wrote gives `(short)n`. */
  lemma GetShortOfShortBytes(prefix: seq<byte>, n: int)
    ensures GetShort(prefix + ShortBytes(n), |prefix|) == ToInt16(n)
  {
    var buf := prefix + ShortBytes(n);
    ShortBytesPacking(n);
    assert buf[|prefix|..|prefix| + 2] == BytesOf(n, 2);
    UnsignedOfBytesOf(n, 2);
    Pow256Values();
    var v := GetShort(buf, |prefix|);
    assert v % TWO_16 == n % TWO_16;
    SameRemainder(v, n, TWO_16);
    ToInt16Unique(v, n);
  }

  /** Writing back a value read with GetShort reproduces the two bytes. */
  lemma ShortBytesOfGetShort(buf: seq<byte>, offset: int)
    requires 0 <= offset && offset + 2 <= |buf|
    ensures ShortBytes(GetShort(buf, offset)) == buf[offset..offset + 2]
  {
    var s := buf[offset..offset + 2];
    Pow256Values();
    var v := GetShort(buf, offset);
    ShortBytesPacking(v);
    assert v % TWO_16 == Unsigned(s) % TWO_16;
    SameRemainder(v, Unsigned(s), TWO_16);
    BytesOfCongruent(v, Unsigned(s), 2);
    BytesOfUnsigned(s);
  }

  /** Reading back what WriteInt wrote gives `(int)n`, so n itself for a 32-bit n. */
  lemma GetIntOfIntBytes(prefix: seq<byte>, n: int)
    ensures GetInt(prefix + IntBytes(n), |prefix|) == ToInt32(n)
    ensures IsInt32(n) ==> GetInt(prefix + IntBytes(n), |prefix|) == n
  {
    var buf := prefix + IntBytes(n);
    IntBytesPacking(n);
    assert buf[|prefix|..|prefix| + 4] == BytesOf(n, 4);
    UnsignedOfBytesOf(n, 4);
    Pow256Values();
    var v := GetInt(buf, |prefix|);
    assert v % TWO_32 == n % TWO_32;
    SameRemainder(v, n, TWO_32);
    ToInt32Unique(v, n);
    if IsInt32(n) {
      ToInt32Unique(n, n);
    }
  }

  /** Writing back a value read with GetInt reproduces the four bytes. */
  lemma IntBytesOfGetInt(buf: seq<byte>, offset: int)
    requires 0 <= offset && offset + 4 <= |buf|
    ensures IntBytes(GetInt(buf, offset)) == buf[offset..offset + 4]
  {
    var s := buf[offset..offset + 4];
    Pow256Values();
    var v := GetInt(buf, offset);
    IntBytesPacking(v);
    assert v % TWO_32 == Unsigned(s) % TWO_32;
    SameRemainder(v, Unsigned(s), TWO_32);
    BytesOfCongruent(v, Unsigned(s), 4);
    BytesOfUnsigned(s);
  }

  /** StuffLong stores n modulo 2^64, big-endian. */
  lemma LongBytesValue(n: int)
    ensures Unsigned(LongBytes(n)) == n % 0x1_0000_0000_0000_0000
  {
    LongBytesPacking(n);
    UnsignedOfBytesOf(n, 8);
    Pow256Values();
  }

  /** A growing output buffer (System.IO.MemoryStream as the source uses it: append only). */
  class ByteStream {
    var bytes: seq<byte>

    constructor ()
      ensures bytes == []
    {
      bytes := [];
    }

    /** Stream.WriteByte((byte)b). */
    method WriteByte(b: int)
      modifies this
      ensures bytes == old(bytes) + [b % 256]
    {
      bytes := bytes + [b % 256];
    }

    /** Stream.Write(s, 0, s.Length). */
    method Write(s: seq<byte>)
      modifies this
      ensures bytes == old(bytes) + s
    {
      bytes := bytes + s;
    }

    /** IOUtils.WriteShort: appends exactly two bytes, high then low (GetShortOfShortBytes reads them back). */
    method WriteShort(n: int)
      modifies this
      ensures bytes == old(bytes) + ShortBytes(n)
    {
      WriteByte(n / 0x100);
      WriteByte(n);
    }

    /** IOUtils.WriteInt: appends exactly four bytes, most significant first (GetIntOfIntBytes reads them back). */
    method WriteInt(n: int)
      modifies this
      ensures bytes == old(bytes) + IntBytes(n)
    {
      WriteByte(n / 0x100_0000);
      WriteByte(n / 0x1_0000);
      WriteByte(n / 0x100);
      WriteByte(n);
    }
  }

  /** IOUtils.StuffShort: overwrites arr[index] and arr[index + 1] with n, big-endian. */
  method StuffShort(arr: array<byte>, index: int, n: int)
    requires 0 <= index && index + 2 <= arr.Length
    requires IsInt16(n)
    modifies arr
    ensures arr[..] == old(arr[..])[..index] + ShortBytes(n) + old(arr[..])[index + 2..]
    ensures GetShort(arr[..], index) == n
  {
    arr[index] := ByteAt(n, 1);
    arr[index + 1] := ByteAt(n, 0);
    assert arr[..] == old(arr[..])[..index] + ShortBytes(n) + old(arr[..])[index + 2..];
    GetShortOfShortBytes(old(arr[..])[..index], n);
    assert arr[..] == (old(arr[..])[..index] + ShortBytes(n)) + old(arr[..])[index + 2..];
    assert arr[..][..index + 2] == old(arr[..])[..index] + ShortBytes(n);
    ToInt16Unique(n, n);
  }

  /** IOUtils.StuffLong: overwrites arr[index..index + 8] with n, big-endian; nothing else changes. */
  method StuffLong(arr: array<byte>, index: int, n: int)
    requires 0 <= index && index + 8 <= arr.Length
    requires IsInt64(n)
    modifies arr
    ensures arr[..] == old(arr[..])[..index] + LongBytes(n) + old(arr[..])[index + 8..]
  {
    ghost var before := arr[..];
    arr[index] := ByteAt(n, 7);
    arr[index + 1] := ByteAt(n, 6);
    arr[index + 2] := ByteAt(n, 5);
    arr[index + 3] := ByteAt(n, 4);
    arr[index + 4] := ByteAt(n, 3);
    arr[index + 5] := ByteAt(n, 2);
    arr[index + 6] := ByteAt(n, 1);
    arr[index + 7] := ByteAt(n, 0);
    assert arr[..index] == before[..index];
    assert arr[index + 8..] == before[index + 8..];
    assert arr[index..index + 8] == LongBytes(n);
    Splice(arr[..], index, index + 8);
  }

  /** Concatenation is associative (stated once, so that callers need not argue element by element). */
  lemma AppendAssoc<T>(a: seq<T>, b: seq<T>, c: seq<T>)
    ensures a + b + c == a + (b + c)
  {
  }

  /** A sequence is its prefix, a middle slice and its suffix. */
  lemma Splice<T>(s: seq<T>, i: int, j: int)
    requires 0 <= i <= j <= |s|
    ensures s == s[..i] + s[i..j] + s[j..]
  {
  }

  /** OpenTypeFont.SetIntAtIndex: overwrites arr[index..index + 4] with value, big-endian. */
  method SetIntAtIndex(arr: array<byte>, index: int, value: int)
    requires 0 <= index && index + 4 <= arr.Length
    requires IsInt32(value)
    modifies arr
    ensures arr[..] == old(arr[..])[..index] + IntBytes(value) + old(arr[..])[index + 4..]
    ensures GetInt(arr[..], index) == value
  {
    arr[index] := ByteAt(value, 3);
    arr[index + 1] := ByteAt(value, 2);
    arr[index + 2] := ByteAt(value, 1);
    arr[index + 3] := ByteAt(value, 0);
    assert arr[..] == (old(arr[..])[..index] + IntBytes(value)) + old(arr[..])[index + 4..];
    assert arr[..][..index + 4] == old(arr[..])[..index] + IntBytes(value);
    GetIntOfIntBytes(old(arr[..])[..index], value);
  }
}
