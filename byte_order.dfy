/**
 * Little-endian encoding of the multi-byte header fields. BitConverter uses the
 * host's byte order; the model fixes it to little-endian, the order of every
 * platform the library targets.
 */
module ByteOrder {
  import opened NetDefine

  /** BitConverter.ToUInt16: two bytes, low byte first. */
  function UInt16Of(lo: byte, hi: byte): (v: int)
    ensures 0 <= v < 0x1_0000
  {
    lo + 256 * hi
  }

  /** BitConverter.GetBytes(ushort). Decoding the bytes gives the value back. */
  function UInt16Bytes(v: int): (b: seq<byte>)
    requires 0 <= v < 0x1_0000
    ensures |b| == 2 && UInt16Of(b[0], b[1]) == v
  {
    [v % 256, v / 256]
  }

  /** Encoding decoded bytes gives the bytes back. */
  lemma UInt16BytesOf(lo: byte, hi: byte)
    ensures UInt16Bytes(UInt16Of(lo, hi)) == [lo, hi]
  {
    assert (lo + 256 * hi) % 256 == lo && (lo + 256 * hi) / 256 == hi;
  }

  /** BitConverter.ToInt16: the unsigned value read as 16-bit two's complement. */
  function Int16Of(lo: byte, hi: byte): (v: int)
    ensures -0x8000 <= v < 0x8000
    ensures (hi < 0x80) == (0 <= v)
  {
    var u := UInt16Of(lo, hi);
    if u < 0x8000 then u else u - 0x1_0000
  }

  /** BitConverter.GetBytes(short). Decoding the bytes gives the value back. */
  function Int16Bytes(v: int): (b: seq<byte>)
    requires -0x8000 <= v < 0x8000
    ensures |b| == 2 && Int16Of(b[0], b[1]) == v
  {
    UInt16Bytes(if v < 0 then v + 0x1_0000 else v)
  }

  /** BitConverter.ToInt32: four bytes, lowest first, read as two's complement. */
  function Int32Of(b0: byte, b1: byte, b2: byte, b3: byte): (v: int32)
    ensures (b3 < 0x80) == (0 <= v)
  {
    var u := UInt16Of(b0, b1) + 0x1_0000 * UInt16Of(b2, b3);
    if u < 0x8000_0000 then u else u - 0x1_0000_0000
  }

  /** BitConverter.GetBytes(int). Decoding the bytes gives the value back. */
  function Int32Bytes(v: int32): (b: seq<byte>)
    ensures |b| == 4 && Int32Of(b[0], b[1], b[2], b[3]) == v
  {
    var u: int := if v < 0 then v as int + 0x1_0000_0000 else v as int;
    UInt16Bytes(u % 0x1_0000) + UInt16Bytes(u / 0x1_0000)
  }

  /** Splitting `lo + 0x10000 * hi` into 16-bit halves recovers `lo` and `hi`. */
  lemma HalvesOf(lo: int, hi: int)
    requires 0 <= lo < 0x1_0000 && 0 <= hi < 0x1_0000
    ensures (lo + 0x1_0000 * hi) % 0x1_0000 == lo && (lo + 0x1_0000 * hi) / 0x1_0000 == hi
  {
  }

  /** Encoding decoded bytes gives the bytes back. */
  lemma Int32BytesOf(b0: byte, b1: byte, b2: byte, b3: byte)
    ensures Int32Bytes(Int32Of(b0, b1, b2, b3)) == [b0, b1, b2, b3]
  {
    var lo, hi := UInt16Of(b0, b1), UInt16Of(b2, b3);
    var u := lo + 0x1_0000 * hi;
    var v := Int32Of(b0, b1, b2, b3);
    assert (if v < 0 then v as int + 0x1_0000_0000 else v as int) == u;
    HalvesOf(lo, hi);
    calc {
      Int32Bytes(v);
      UInt16Bytes(u % 0x1_0000) + UInt16Bytes(u / 0x1_0000);
      UInt16Bytes(lo) + UInt16Bytes(hi);
      { UInt16BytesOf(b0, b1); UInt16BytesOf(b2, b3); }
      [b0, b1] + [b2, b3];
    }
  }
}
