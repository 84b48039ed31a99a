/** Bytes and the little-endian signed 32-bit integer decoding of `i32::from_le_bytes`. */
module Bytes {

  /** An unsigned 8-bit value, Rust's `u8`. */
  newtype byte = x: int | 0 <= x < 256

  const TwoTo31: int := 0x8000_0000
  const TwoTo32: int := 0x1_0000_0000

  /** True of the values an `i32` can hold. */
  predicate InI32(v: int) {
    -TwoTo31 <= v < TwoTo31
  }

  /** The unsigned value of four bytes, least significant first. */
  function LeU32(b: seq<byte>): (u: nat)
    requires |b| == 4
    ensures u < TwoTo32
    ensures u % 256 == b[0] as int
  {
    (b[0] as int) + 0x100 * (b[1] as int) + 0x1_0000 * (b[2] as int) + 0x100_0000 * (b[3] as int)
  }

  /** `i32::from_le_bytes`: the two's-complement reading of four little-endian bytes.
      The value is negative exactly when the top bit of the last byte is set. */
  function LeI32(b: seq<byte>): (v: int)
    requires |b| == 4
    ensures InI32(v)
    ensures v < 0 <==> b[3] >= 128
    ensures v >= 0 ==> v == LeU32(b)
    ensures v < 0 ==> v == LeU32(b) - TwoTo32
  {
    var u := LeU32(b);
    if u >= TwoTo31 then u - TwoTo32 else u
  }

  /** `i32::to_le_bytes`: the four little-endian bytes of a signed 32-bit value. */
  function I32ToLe(v: int): (b: seq<byte>)
    requires InI32(v)
    ensures |b| == 4
    ensures v < 0 <==> b[3] >= 128
  {
    var u := if v < 0 then v + TwoTo32 else v;
    var u1 := u / 256;
    var u2 := u1 / 256;
    [(u % 256) as byte, (u1 % 256) as byte, (u2 % 256) as byte, (u2 / 256) as byte]
  }

  /** Splitting a number into its low byte and the rest, and the uniqueness of that split. */
  lemma DivMod256(x: int, q: int, r: int)
    requires 0 <= r < 256 && x == 256 * q + r
    ensures x / 256 == q && x % 256 == r
  {
  }

  /** Decoding what `I32ToLe` wrote gives back the value. */
  lemma DecodeEncode(v: int)
    requires InI32(v)
    ensures LeI32(I32ToLe(v)) == v
  {
    var u := if v < 0 then v + TwoTo32 else v;
    var u1 := u / 256;
    var u2 := u1 / 256;
    assert u == 256 * u1 + u % 256;
    assert u1 == 256 * u2 + u1 % 256;
    assert u2 == 256 * (u2 / 256) + u2 % 256;
    var b := I32ToLe(v);
    assert LeU32(b) == u;
  }

  /** Encoding a decoded value gives back the four bytes. */
  lemma EncodeDecode(b: seq<byte>)
    requires |b| == 4
    ensures I32ToLe(LeI32(b)) == b
  {
    var u := LeU32(b);
    var u1 := (b[1] as int) + 0x100 * (b[2] as int) + 0x1_0000 * (b[3] as int);
    var u2 := (b[2] as int) + 0x100 * (b[3] as int);
    DivMod256(u, u1, b[0] as int);
    DivMod256(u1, u2, b[1] as int);
    DivMod256(u2, b[3] as int, b[2] as int);
    var e := I32ToLe(LeI32(b));
    assert e[0] == b[0] && e[1] == b[1] && e[2] == b[2] && e[3] == b[3];
  }
}
