/** Fixed-width integers, the little-endian layout of 32- and 64-bit words, and
    the C-string notion of "no NUL byte" shared by the writer and the reader. */
module Bytes {

  type uint8 = x: int | 0 <= x < 0x100
  type uint32 = x: int | 0 <= x < 0x1_0000_0000
  type uint64 = x: int | 0 <= x < 0x1_0000_0000_0000_0000

  datatype Option<+T> = None | Some(value: T)

  /** A byte string that `strlen` measures in full: it holds no NUL byte. */
  predicate NoNul(s: seq<uint8>) {
    forall i | 0 <= i < |s| :: s[i] != 0
  }

  /** The four bytes of `i`, lowest first: `i & 0xff`, `(i >> 8) & 0xff`,
      `(i >> 16) & 0xff`, `(i >> 24) & 0xff`. */
  function LE32(i: uint32): (r: seq<uint8>)
    ensures |r| == 4
  {
    [i % 0x100, (i / 0x100) % 0x100, (i / 0x1_0000) % 0x100, (i / 0x100_0000) % 0x100]
  }

  /** `b[0] | b[1] << 8 | b[2] << 16 | b[3] << 24` over four bytes. */
  function FromLE32(b: seq<uint8>): uint32
    requires |b| == 4
  {
    b[0] as int + b[1] as int * 0x100 + b[2] as int * 0x1_0000 + b[3] as int * 0x100_0000
  }

  /** `(uint64_t)lo | (uint64_t)hi << 32` over eight little-endian bytes. */
  function FromLE64(b: seq<uint8>): uint64
    requires |b| == 8
  {
    FromLE32(b[..4]) + FromLE32(b[4..]) * 0x1_0000_0000
  }

  /** The `(int32_t)` cast: the two's-complement reading of a 32-bit word. */
  function ToInt32(u: uint32): (r: int)
    ensures -0x8000_0000 <= r < 0x8000_0000
    ensures r % 0x1_0000_0000 == u
    ensures u < 0x8000_0000 <==> r >= 0
  {
    if u < 0x8000_0000 then u else u - 0x1_0000_0000
  }

  /** The `(int64_t)` cast: the two's-complement reading of a 64-bit word. */
  function ToInt64(u: uint64): (r: int)
    ensures -0x8000_0000_0000_0000 <= r < 0x8000_0000_0000_0000
    ensures r % 0x1_0000_0000_0000_0000 == u
    ensures u < 0x8000_0000_0000_0000 <==> r >= 0
  {
    if u < 0x8000_0000_0000_0000 then u else u - 0x1_0000_0000_0000_0000
  }

  /** Decoding the bytes written for `i` gives back `i`. */
  lemma LE32RoundTrip(i: uint32)
    ensures FromLE32(LE32(i)) == i
  {
    var b3 := i / 0x100_0000;
    var r3 := i % 0x100_0000;
    var b2 := r3 / 0x1_0000;
    var r2 := r3 % 0x1_0000;
    var b1 := r2 / 0x100;
    var b0 := r2 % 0x100;
    ByteDigits(i, b0, b1, b2, b3);
  }

  /** Encoding a decoded word gives back the same four bytes. */
  lemma LE32Decode(b: seq<uint8>)
    requires |b| == 4
    ensures LE32(FromLE32(b)) == b
  {
    ByteDigits(FromLE32(b), b[0], b[1], b[2], b[3]);
  }

  /** A word written with the base-256 digits `b0..b3`, lowest first, is
      encoded as those digits. */
  lemma ByteDigits(i: int, b0: int, b1: int, b2: int, b3: int)
    requires 0 <= b0 < 0x100 && 0 <= b1 < 0x100 && 0 <= b2 < 0x100 && 0 <= b3 < 0x100
    requires i == b0 + 0x100 * b1 + 0x1_0000 * b2 + 0x100_0000 * b3
    ensures 0 <= i < 0x1_0000_0000
    ensures LE32(i) == [b0, b1, b2, b3]
  {
    Shift8(i, b0, b1 + 0x100 * b2 + 0x1_0000 * b3);
    Shift8(i / 0x100, b1, b2 + 0x100 * b3);
    Shift16(i, b0 + 0x100 * b1, b2 + 0x100 * b3);
    Shift8(i / 0x1_0000, b2, b3);
    Shift24(i, b0 + 0x100 * b1 + 0x1_0000 * b2, b3);
    Shift8(i / 0x100_0000, b3, 0);
  }

  /** Splitting `n` after its lowest byte. */
  lemma Shift8(n: int, lo: int, hi: int)
    requires n == lo + 0x100 * hi && 0 <= lo < 0x100
    ensures n / 0x100 == hi && n % 0x100 == lo
  {
  }

  /** Splitting `n` after its two lowest bytes. */
  lemma Shift16(n: int, lo: int, hi: int)
    requires n == lo + 0x1_0000 * hi && 0 <= lo < 0x1_0000
    ensures n / 0x1_0000 == hi
  {
  }

  /** Splitting `n` after its three lowest bytes. */
  lemma Shift24(n: int, lo: int, hi: int)
    requires n == lo + 0x100_0000 * hi && 0 <= lo < 0x100_0000
    ensures n / 0x100_0000 == hi
  {
  }

  /** Every word has exactly one encoding. */
  lemma LE32Injective(i: uint32, j: uint32)
    ensures LE32(i) == LE32(j) ==> i == j
  {
    LE32RoundTrip(i);
    LE32RoundTrip(j);
  }
}
