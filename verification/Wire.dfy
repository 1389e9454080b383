/** Bytes and 32-bit little-endian integers, as both ends of the protocol lay them out. */
module Wire {

  newtype byte = x: int | 0 <= x < 256
  type uint32 = x: int | 0 <= x < 0x1_0000_0000
  type int32 = x: int | -0x8000_0000 <= x < 0x8000_0000

  const WORD_LEN := 5
  const CL_WELCOME_WORD: seq<byte> := [67, 87, 76, 67, 77]      // "CWLCM"
  const CL_USB_WELCOME_WORD: seq<byte> := [67, 85, 83, 66, 87]  // "CUSBW"
  const SV_FRAME_WORD: seq<byte> := [83, 70, 82, 77, 69]        // "SFRME"
  const SV_ERROR_WORD: seq<byte> := [83, 69, 82, 82, 67]        // "SERRC"

  /** The unsigned reading of a C++ `int`. */
  function Unsigned(x: int32): uint32 {
    if x < 0 then x + 0x1_0000_0000 else x
  }

  /** The signed reading of the same four bytes. */
  function Signed(u: uint32): int32 {
    if u < 0x8000_0000 then u else u - 0x1_0000_0000
  }

  function EncodeU32(u: uint32): (b: seq<byte>)
    ensures |b| == 4
  {
    [(u % 256) as byte, (u / 0x100 % 256) as byte, (u / 0x1_0000 % 256) as byte, (u / 0x100_0000) as byte]
  }

  function DecodeU32(b: seq<byte>): uint32
    requires |b| == 4
  {
    (b[0] as int) + 0x100 * (b[1] as int) + 0x1_0000 * (b[2] as int) + 0x100_0000 * (b[3] as int)
  }

  function EncodeInt(x: int32): (b: seq<byte>)
    ensures |b| == 4
  {
    EncodeU32(Unsigned(x))
  }

  function DecodeInt(b: seq<byte>): int32
    requires |b| == 4
  {
    Signed(DecodeU32(b))
  }

  /** The four bytes of a number, the lowest first, a negative one in two's complement. */
  predicate LittleEndian(b: seq<byte>, x: int) {
    |b| == 4 &&
    x % 0x1_0000_0000 ==
      (b[0] as int) + 256 * (b[1] as int) + 65_536 * (b[2] as int) + 16_777_216 * (b[3] as int)
  }

  /** Both ends agree on that order. */
  lemma OnTheWire(x: int32, u: uint32, b: seq<byte>)
    ensures LittleEndian(EncodeInt(x), x) && LittleEndian(EncodeU32(u), u)
    ensures |b| == 4 ==> LittleEndian(b, DecodeInt(b)) && LittleEndian(b, DecodeU32(b))
  {
    DecodeEncodeU32(u);
    DecodeEncodeU32(Unsigned(x));
  }

  lemma DecodeEncodeInt(x: int32)
    ensures DecodeInt(EncodeInt(x)) == x
  {
    DecodeEncodeU32(Unsigned(x));
  }

  lemma DecodeEncodeU32(u: uint32)
    ensures DecodeU32(EncodeU32(u)) == u
  {
    assert u / 0x1_0000 == u / 0x100 / 256;
    assert u / 0x100_0000 == u / 0x1_0000 / 256;
  }

  lemma EncodeDecodeU32(b: seq<byte>)
    requires |b| == 4
    ensures EncodeU32(DecodeU32(b)) == b
  {
    var u := DecodeU32(b);
    var high := (b[2] as int) + 256 * (b[3] as int);
    LowByte((b[1] as int) + 256 * high, b[0]);
    LowByte(high, b[1]);
    LowByte(b[3] as int, b[2]);
    assert u / 0x1_0000 == u / 0x100 / 256 && u / 0x100_0000 == u / 0x1_0000 / 256;
  }

  lemma LowByte(high: nat, low: byte)
    ensures (low as int + 256 * high) % 256 == low as int && (low as int + 256 * high) / 256 == high
  {
  }

  lemma EncodeDecodeInt(b: seq<byte>)
    requires |b| == 4
    ensures EncodeInt(DecodeInt(b)) == b
  {
    EncodeDecodeU32(b);
    assert Unsigned(Signed(DecodeU32(b))) == DecodeU32(b);
  }
}
