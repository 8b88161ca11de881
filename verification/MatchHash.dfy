// The hash values of LzFind.c (HASH4_CALC), and why equal values with an equal first byte
// mean that two or three bytes are equal.

module MatchHashes {
  import opened Bytes
  import opened Bits

  const HASH2_BITS := 10
  const HASH3_BITS := 16

  function Temp(crc: seq<nat>, c0: Byte, c1: Byte): nat
    requires |crc| == 256
  {
    Xor(crc[c0], c1)
  }

  function Hash2(crc: seq<nat>, c0: Byte, c1: Byte): nat
    requires |crc| == 256
  {
    Low(Temp(crc, c0, c1), HASH2_BITS)
  }

  function Hash3(crc: seq<nat>, c0: Byte, c1: Byte, c2: Byte): nat
    requires |crc| == 256
  {
    Low(Xor(Temp(crc, c0, c1), c2 * 256), HASH3_BITS)
  }

  /** The mask of the main hash keeps `bits` bits, at most 24, so 32-bit shifts lose nothing it sees. */
  function Hash4(crc: seq<nat>, bits: nat, c0: Byte, c1: Byte, c2: Byte, c3: Byte): nat
    requires |crc| == 256
  {
    Low(Xor(Xor(Temp(crc, c0, c1), c2 * 256), crc[c3] * 32), bits)
  }

  /** Equal two-byte hashes and an equal first byte: the second byte is equal too. */
  lemma Hash2Tells(crc: seq<nat>, c0: Byte, a: Byte, b: Byte)
    requires |crc| == 256 && Hash2(crc, c0, a) == Hash2(crc, c0, b)
    ensures a == b
  {
    hide Xor, Low;
    PowersOfTwo();
    XorSame(crc[c0], a, b, HASH2_BITS);
    LowSmall(a, HASH2_BITS);
    LowSmall(b, HASH2_BITS);
  }

  /** Equal three-byte hashes and an equal first byte: the next two bytes are equal too. */
  lemma Hash3Tells(crc: seq<nat>, c0: Byte, a1: Byte, a2: Byte, b1: Byte, b2: Byte)
    requires |crc| == 256 && Hash3(crc, c0, a1, a2) == Hash3(crc, c0, b1, b2)
    ensures a1 == b1 && a2 == b2
  {
    hide Xor, Low;
    PowersOfTwo();
    var u, v := Temp(crc, c0, a1), Temp(crc, c0, b1);
    LowShorter(Xor(u, a2 * 256), Xor(v, b2 * 256), 8, HASH3_BITS);
    XorShifted(u, a2, 8, 256);
    XorShifted(v, b2, 8, 256);
    XorSame(crc[c0], a1, b1, 8);
    LowSmall(a1, 8);
    LowSmall(b1, 8);
    XorSame(u, a2 * 256, b2 * 256, HASH3_BITS);
    LowSmall(a2 * 256, HASH3_BITS);
    LowSmall(b2 * 256, HASH3_BITS);
  }
}
