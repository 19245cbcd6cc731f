/**
 * The packet buffer: a fixed-capacity Binary whose first eight bytes are the
 * header [ protocol 4 bytes ][ option 2 bytes ][ size 2 bytes ], followed by the
 * payload. The functions over `seq<byte>` say what each accessor reads and each
 * mutator writes; class `Packet` performs the same updates in place on its array.
 */
module Packets {
  import opened NetDefine
  import opened ByteOrder

  /** EPacketOption: the named flags, each a single bit of the option field. */
  datatype EPacketOption = LZ4Compressed | XORApplied | IsSystemPacket

  /** The flag's bit: 1 << 0, 1 << 1 and 1 << 15. */
  function Mask(o: EPacketOption): nat {
    match o
    case LZ4Compressed => 1
    case XORApplied => 2
    case IsSystemPacket => 0x8000
  }

  /** `(v & Mask(o)) != 0`: the flag's bit, read arithmetically. */
  predicate HasBit(v: int, o: EPacketOption) {
    (v / Mask(o)) % 2 == 1
  }

  /**
   * `v | Mask(o)` when `onoff`, `v & ~Mask(o)` otherwise: for a single-bit mask
   * this adds or subtracts the mask exactly when the bit has to change.
   */
  function WithBit(v: int, o: EPacketOption, onoff: bool): int {
    if HasBit(v, o) == onoff then v
    else if onoff then v + Mask(o)
    else v - Mask(o)
  }

  /** A Binary has exactly the packet capacity. */
  predicate IsBinary(b: seq<byte>) {
    |b| == MaxPacketBinaryLength
  }

  /** `b` with `v` written at offset `at`, as Buffer.BlockCopy does. */
  function WithBytes(b: seq<byte>, at: nat, v: seq<byte>): (r: seq<byte>)
    requires at + |v| <= |b|
    ensures |r| == |b| && r[at..at + |v|] == v
    ensures forall i :: 0 <= i < |b| && !(at <= i < at + |v|) ==> r[i] == b[i]
  {
    b[..at] + v + b[at + |v|..]
  }

  // ---------------------------------------------------------------- getters

  /** Protocol: the int32 at offset 0. */
  function ProtocolOf(b: seq<byte>): int32
    requires |b| >= PacketHeaderLength
  {
    Int32Of(b[0], b[1], b[2], b[3])
  }

  /** Option: the uint16 at offset 4. */
  function OptionOf(b: seq<byte>): int
    requires |b| >= PacketHeaderLength
  {
    UInt16Of(b[4], b[5])
  }

  /** Size: the int16 at offset 6 (signed, as BitConverter.ToInt16 reads it). */
  function SizeOf(b: seq<byte>): int
    requires |b| >= PacketHeaderLength
  {
    Int16Of(b[6], b[7])
  }

  /** DataSize: the payload length the size field announces, or 0 when that is out of range. */
  function DataSizeOf(b: seq<byte>): (n: int)
    requires |b| >= PacketHeaderLength
    ensures 0 <= n <= MaxPacketDataBinaryLength
    ensures PacketHeaderLength <= SizeOf(b) <= MaxPacketBinaryLength ==> n == SizeOf(b) - PacketHeaderLength
    ensures !(PacketHeaderLength <= SizeOf(b) <= MaxPacketBinaryLength) ==> n == 0
  {
    var n := SizeOf(b) - PacketHeaderLength;
    if n < 0 || n > MaxPacketDataBinaryLength then 0 else n
  }

  /** _GetOption: whether the flag's bit is set in the option field. */
  predicate HasOption(b: seq<byte>, o: EPacketOption)
    requires |b| >= PacketHeaderLength
  {
    HasBit(OptionOf(b), o)
  }

  // ---------------------------------------------------------------- setters

  /** The private Protocol setter: only bytes 0..4 change, and Protocol reads `p` back. */
  function StoreProtocol(b: seq<byte>, p: int32): (r: seq<byte>)
    requires |b| >= PacketHeaderLength
    ensures |r| == |b| && ProtocolOf(r) == p
    ensures r[PacketProtocolLength..] == b[PacketProtocolLength..]
  {
    WithBytes(b, PacketProtocolOffset, Int32Bytes(p))
  }

  /**
   * The private Size setter. A value that is not positive or not below the
   * capacity is ignored; otherwise only bytes 6..8 change and Size reads it back.
   */
  function StoreSize(b: seq<byte>, v: int): (r: seq<byte>)
    requires |b| >= PacketHeaderLength
    ensures |r| == |b|
    ensures 0 < v < MaxPacketBinaryLength ==> SizeOf(r) == v
    ensures !(0 < v < MaxPacketBinaryLength) ==> r == b
    ensures r[..PacketSizeOffset] == b[..PacketSizeOffset] && r[PacketDataOffset..] == b[PacketDataOffset..]
  {
    if v <= 0 || v >= MaxPacketBinaryLength then b
    else WithBytes(b, PacketSizeOffset, Int16Bytes(v))
  }

  /** The private Option setter: only bytes 4..6 change, and Option reads `o` back. */
  function StoreOption(b: seq<byte>, o: int): (r: seq<byte>)
    requires |b| >= PacketHeaderLength && 0 <= o < 0x1_0000
    ensures |r| == |b| && OptionOf(r) == o
    ensures r[..PacketOptionOffset] == b[..PacketOptionOffset] && r[PacketSizeOffset..] == b[PacketSizeOffset..]
  {
    WithBytes(b, PacketOptionOffset, UInt16Bytes(o))
  }

  /**
   * _SetOption: sets or clears one flag in the option field. Reading that flag
   * gives `onoff` back; the other flags and every byte outside the option field
   * stay as they were.
   */
  function WithOption(b: seq<byte>, o: EPacketOption, onoff: bool): (r: seq<byte>)
    requires |b| >= PacketHeaderLength
    ensures |r| == |b| && HasOption(r, o) == onoff
    ensures forall g :: g != o ==> HasOption(r, g) == HasOption(b, g)
    ensures (HasOption(b, o) == onoff) == (OptionOf(r) == OptionOf(b))
    ensures r[..PacketOptionOffset] == b[..PacketOptionOffset] && r[PacketSizeOffset..] == b[PacketSizeOffset..]
  {
    FlagUpdate(b[4], b[5], o, onoff);
    StoreOption(b, WithBit(OptionOf(b), o, onoff))
  }

  /** The three flags, read off the two bytes of the option field. */
  lemma FlagsOfBytes(lo: byte, hi: byte)
    ensures HasBit(UInt16Of(lo, hi), LZ4Compressed) == (lo % 2 == 1)
    ensures HasBit(UInt16Of(lo, hi), XORApplied) == ((lo / 2) % 2 == 1)
    ensures HasBit(UInt16Of(lo, hi), IsSystemPacket) == (hi >= 128)
  {
    var a, b, c, e, d := lo % 2, (lo / 2) % 2, lo / 4, hi % 128, hi / 128;
    assert lo == a + 2 * b + 4 * c;
    assert hi == e + 128 * d;
    assert UInt16Of(lo, hi) == a + 2 * b + 4 * (c + 64 * e) + 0x8000 * d;
    FlagsOfDigits(a, b, c + 64 * e, d);
  }

  /** A value written as bit 0, bit 1, bits 2..14 and bit 15. */
  lemma FlagsOfDigits(a: int, b: int, c: int, d: int)
    requires 0 <= a < 2 && 0 <= b < 2 && 0 <= c < 0x2000 && 0 <= d < 2
    ensures var v := a + 2 * b + 4 * c + 0x8000 * d;
      HasBit(v, LZ4Compressed) == (a == 1) && HasBit(v, XORApplied) == (b == 1) && HasBit(v, IsSystemPacket) == (d == 1)
  {
  }

  /** Setting or clearing one flag keeps the value a uint16 and touches no other flag. */
  lemma FlagUpdate(lo: byte, hi: byte, o: EPacketOption, onoff: bool)
    ensures var v := WithBit(UInt16Of(lo, hi), o, onoff);
      && 0 <= v < 0x1_0000 && HasBit(v, o) == onoff
      && forall g :: g != o ==> HasBit(v, g) == HasBit(UInt16Of(lo, hi), g)
  {
    FlagsOfBytes(lo, hi);
    if HasBit(UInt16Of(lo, hi), o) != onoff {
      match o
      case LZ4Compressed =>
        var n := if onoff then lo + 1 else lo - 1;
        FlagBit0(lo, onoff);
        assert WithBit(UInt16Of(lo, hi), o, onoff) == UInt16Of(n, hi);
        FlagsOfBytes(n, hi);
      case XORApplied =>
        var n := if onoff then lo + 2 else lo - 2;
        FlagBit1(lo, onoff);
        assert WithBit(UInt16Of(lo, hi), o, onoff) == UInt16Of(n, hi);
        FlagsOfBytes(n, hi);
      case IsSystemPacket =>
        var n := if onoff then hi + 128 else hi - 128;
        assert WithBit(UInt16Of(lo, hi), o, onoff) == UInt16Of(lo, n);
        FlagsOfBytes(lo, n);
    }
  }

  lemma FlagBit0(lo: byte, onoff: bool)
    requires (lo % 2 == 1) != onoff
    ensures var n := if onoff then lo + 1 else lo - 1;
      0 <= n < 256 && (n % 2 == 1) == onoff && (n / 2) % 2 == (lo / 2) % 2
  {
  }

  lemma FlagBit1(lo: byte, onoff: bool)
    requires ((lo / 2) % 2 == 1) != onoff
    ensures var n := if onoff then lo + 2 else lo - 2;
      0 <= n < 256 && ((n / 2) % 2 == 1) == onoff && n % 2 == lo % 2
  {
  }

  // ---------------------------------------------------------- data transfer

  /**
   * SetData reaches its BlockCopy only for present data and a size in 1..1432;
   * there the copy needs `n` readable bytes of `data`.
   */
  predicate CopyableData(data: Nullable<seq<byte>>, n: int) {
    data.NonNull? && 0 < n <= MaxPacketDataBinaryLength ==> n <= |data.value|
  }

  /**
   * CopyRecvData and the receive constructor reach their BlockCopy only for a
   * present buffer and a length in 8..1440; there the copy needs `n` readable bytes.
   */
  predicate CopyableRecv(recv: Nullable<seq<byte>>, n: int) {
    recv.NonNull? && PacketHeaderLength <= n <= MaxPacketBinaryLength ==> n <= |recv.value|
  }

  /**
   * SetData(data, dataSize): the checks run in the order negative size, size above
   * the payload maximum, missing data; the first failing one is reported and
   * nothing is written. On success the payload occupies bytes 8..8+n; the size
   * field becomes 8 + n, except for a full 1432-byte payload, where the Size
   * setter ignores 1440 and the old size field stays.
   */
  function SetDataBytes(b: seq<byte>, data: Nullable<seq<byte>>, n: int): (r: (ENetError, seq<byte>))
    requires IsBinary(b) && CopyableData(data, n)
    ensures |r.1| == |b|
    ensures n < 0 ==> r == (Packet_InvalidDataSize, b)
    ensures n > MaxPacketDataBinaryLength ==> r == (Packet_DataSizeIsTooLarge, b)
    ensures 0 < n <= MaxPacketDataBinaryLength && data.Null? ==> r == (Packet_DataIsNull, b)
    ensures r.0 == Success <==> 0 <= n <= MaxPacketDataBinaryLength && (n == 0 || data.NonNull?)
    ensures r.0 == Success ==>
      && (n > 0 ==> r.1[PacketDataOffset..PacketDataOffset + n] == data.value[..n])
      && r.1[..PacketSizeOffset] == b[..PacketSizeOffset]
      && r.1[PacketDataOffset + n..] == b[PacketDataOffset + n..]
    ensures r.0 == Success && n < MaxPacketDataBinaryLength ==>
      SizeOf(r.1) == PacketHeaderLength + n && DataSizeOf(r.1) == n
    ensures r.0 == Success && n == MaxPacketDataBinaryLength ==> SizeOf(r.1) == SizeOf(b)
  {
    if n < 0 then (Packet_InvalidDataSize, b)
    else if n > MaxPacketDataBinaryLength then (Packet_DataSizeIsTooLarge, b)
    else if n > 0 && data.Null? then (Packet_DataIsNull, b)
    else
      var copied := if n > 0 then WithBytes(b, PacketDataOffset, data.value[..n]) else b;
      (Success, StoreSize(copied, PacketHeaderLength + n))
  }

  /**
   * SetData(protocol, data, dataSize): Protocol and a header-only Size are written
   * before the payload checks run, so a failed call still leaves the new protocol
   * and size 8 behind.
   */
  function SetProtocolDataBytes(b: seq<byte>, p: int32, data: Nullable<seq<byte>>, n: int): (r: (ENetError, seq<byte>))
    requires IsBinary(b) && CopyableData(data, n)
    ensures |r.1| == |b|
  {
    var withHeader := StoreSize(StoreProtocol(b, p), PacketHeaderLength);
    SetDataBytes(withHeader, data, n)
  }

  /**
   * The protocol is always written; the payload checks decide the error as
   * SetData(data, size) alone would; a failure leaves a header-only size; a
   * success below the capacity announces the payload, one at the capacity
   * announces none; and the payload bytes land behind the header.
   */
  lemma SetProtocolDataSpec(b: seq<byte>, p: int32, data: Nullable<seq<byte>>, n: int)
    requires IsBinary(b) && CopyableData(data, n)
    ensures var r := SetProtocolDataBytes(b, p, data, n);
      && ProtocolOf(r.1) == p
      && r.0 == SetDataBytes(b, data, n).0
      && (r.0 != Success ==> SizeOf(r.1) == PacketHeaderLength && DataSizeOf(r.1) == 0)
      && (r.0 == Success && n < MaxPacketDataBinaryLength ==> DataSizeOf(r.1) == n)
      && (r.0 == Success && n == MaxPacketDataBinaryLength ==> DataSizeOf(r.1) == 0)
      && (r.0 == Success && n > 0 ==> r.1[PacketDataOffset..PacketDataOffset + n] == data.value[..n])
  {
  }

  /**
   * CopyRecvData: a missing buffer, a length below the header and a length
   * above the capacity are rejected in that order without writing; otherwise
   * exactly the first n bytes are copied and the rest of the Binary is kept.
   */
  function CopyRecvBytes(b: seq<byte>, recv: Nullable<seq<byte>>, n: int): (r: (ENetError, seq<byte>))
    requires IsBinary(b) && CopyableRecv(recv, n)
    ensures |r.1| == |b|
    ensures recv.Null? ==> r == (Packet_DataIsNull, b)
    ensures recv.NonNull? && n < PacketHeaderLength ==> r == (Packet_InvalidDataSize, b)
    ensures recv.NonNull? && n > MaxPacketBinaryLength ==> r == (Packet_DataSizeIsTooLarge, b)
    ensures r.0 == Success <==> recv.NonNull? && PacketHeaderLength <= n <= MaxPacketBinaryLength
    ensures r.0 == Success ==> r.1[..n] == recv.value[..n] && r.1[n..] == b[n..]
  {
    if recv.Null? then (Packet_DataIsNull, b)
    else if n < PacketHeaderLength then (Packet_InvalidDataSize, b)
    else if n > MaxPacketBinaryLength then (Packet_DataSizeIsTooLarge, b)
    else (Success, WithBytes(b, 0, recv.value[..n]))
  }

  /** A zero Binary whose size field says 8: protocol 0, no options, no payload. */
  function EmptyBinary(): (r: seq<byte>)
    ensures IsBinary(r)
  {
    Zeros(MaxPacketBinaryLength)[PacketSizeOffset := PacketHeaderLength]
  }

  /** `Packet()` runs SetData(0, null, 0) on a zeroed Binary, which gives the empty Binary. */
  lemma EmptyBinaryIsSetData(z: seq<byte>)
    requires z == Zeros(MaxPacketBinaryLength)
    ensures SetProtocolDataBytes(z, 0, Null, 0) == (Success, EmptyBinary())
  {
    SameProtocol(z, 0);
    ZeroSize(z);
    SizeIdempotent(EmptyBinary());
    assert SetProtocolDataBytes(z, 0, Null, 0) == SetDataBytes(StoreSize(StoreProtocol(z, 0), PacketHeaderLength), Null, 0);
  }

  lemma ZeroSize(z: seq<byte>)
    requires z == Zeros(MaxPacketBinaryLength)
    ensures StoreSize(z, PacketHeaderLength) == EmptyBinary()
  {
    assert Int16Bytes(8) == [8, 0];
  }

  /** Writing the protocol a Binary already holds changes nothing. */
  lemma SameProtocol(b: seq<byte>, p: int32)
    requires IsBinary(b) && ProtocolOf(b) == p
    ensures StoreProtocol(b, p) == b
  {
    Int32BytesOf(b[0], b[1], b[2], b[3]);
    assert b[0..4] == [b[0], b[1], b[2], b[3]];
    WithSameBytes(b, 0, Int32Bytes(p));
  }

  /** Writing the bytes a Binary already holds changes nothing. */
  lemma WithSameBytes(b: seq<byte>, at: nat, v: seq<byte>)
    requires at + |v| <= |b| && b[at..at + |v|] == v
    ensures WithBytes(b, at, v) == b
  {
    assert b[..at] + b[at..at + |v|] + b[at + |v|..] == b;
  }

  /** Writing the size field twice with a header-only size is writing it once. */
  lemma SizeIdempotent(b: seq<byte>)
    requires IsBinary(b)
    ensures StoreSize(StoreSize(b, PacketHeaderLength), PacketHeaderLength) == StoreSize(b, PacketHeaderLength)
  {
  }

  /**
   * SetData(protocol) with no payload writes the protocol and a size of 8 and
   * keeps the option field and the payload area.
   */
  lemma HeaderOnlyFields(b: seq<byte>, p: int32)
    requires IsBinary(b)
    ensures var r := SetProtocolDataBytes(b, p, Null, 0);
      && r.0 == Success && ProtocolOf(r.1) == p && OptionOf(r.1) == OptionOf(b)
      && SizeOf(r.1) == PacketHeaderLength && DataSizeOf(r.1) == 0
      && r.1[PacketDataOffset..] == b[PacketDataOffset..]
  {
    var withProtocol := StoreProtocol(b, p);
    var withHeader := StoreSize(withProtocol, PacketHeaderLength);
    assert SetProtocolDataBytes(b, p, Null, 0) == (Success, withHeader);
    assert withHeader[0] == withProtocol[0] && withHeader[1] == withProtocol[1];
    assert withHeader[2] == withProtocol[2] && withHeader[3] == withProtocol[3];
    assert withHeader[4] == withProtocol[4] == b[4] && withHeader[5] == withProtocol[5] == b[5];
    calc {
      withHeader[PacketDataOffset..];
      withProtocol[PacketDataOffset..];
      { assert withProtocol[PacketProtocolLength..] == b[PacketProtocolLength..]; }
      b[PacketDataOffset..];
    }
  }

  /** The empty packet has protocol 0, no options, size 8 and a zero payload area. */
  lemma EmptyBinaryFields()
    ensures ProtocolOf(EmptyBinary()) == 0 && OptionOf(EmptyBinary()) == 0
    ensures SizeOf(EmptyBinary()) == PacketHeaderLength && DataSizeOf(EmptyBinary()) == 0
    ensures EmptyBinary()[PacketDataOffset..] == Zeros(MaxPacketDataBinaryLength)
  {
    EmptyProtocol();
    EmptyOption();
    EmptySize();
    EmptyDataSize();
    EmptyPayload();
  }

  lemma EmptyPayload()
    ensures EmptyBinary()[PacketDataOffset..] == Zeros(MaxPacketDataBinaryLength)
  {
  }

  lemma EmptyDataSize()
    ensures DataSizeOf(EmptyBinary()) == 0
  {
    EmptySize();
  }

  lemma EmptyProtocol()
    ensures ProtocolOf(EmptyBinary()) == 0
  {
    var r := EmptyBinary();
    assert r[0] == 0 && r[1] == 0 && r[2] == 0 && r[3] == 0;
  }

  lemma EmptyOption()
    ensures OptionOf(EmptyBinary()) == 0
  {
    var r := EmptyBinary();
    assert r[4] == 0 && r[5] == 0;
  }

  lemma EmptySize()
    ensures SizeOf(EmptyBinary()) == PacketHeaderLength
  {
    var r := EmptyBinary();
    assert r[6] == 8 && r[7] == 0;
  }

  /**
   * The Binary that `Packet(recvBuffer, n)` builds: a missing, undersized or
   * oversized buffer yields the empty packet; otherwise the first n bytes are
   * copied into a zeroed Binary.
   */
  function RecvBinary(recv: Nullable<seq<byte>>, n: int): (r: seq<byte>)
    requires CopyableRecv(recv, n)
    ensures IsBinary(r)
  {
    if recv.Null? || n < PacketHeaderLength || n > MaxPacketBinaryLength then EmptyBinary()
    else recv.value[..n] + Zeros(MaxPacketBinaryLength - n)
  }

  /** What the receive constructor builds: the first n bytes, then zeros; or the empty Binary for a bad input. */
  lemma RecvBinarySpec(recv: Nullable<seq<byte>>, n: int)
    requires CopyableRecv(recv, n)
    ensures var r := RecvBinary(recv, n);
      && (!(recv.NonNull? && PacketHeaderLength <= n <= MaxPacketBinaryLength) ==> r == EmptyBinary())
      && (recv.NonNull? && PacketHeaderLength <= n <= MaxPacketBinaryLength ==>
            r[..n] == recv.value[..n] && r[n..] == Zeros(MaxPacketBinaryLength - n))
  {
  }

  /** Copying into a zeroed Binary from its start: the bytes, then the zeros left over. */
  lemma CopyIntoZeros(v: seq<byte>)
    requires |v| <= MaxPacketBinaryLength
    ensures WithBytes(Zeros(MaxPacketBinaryLength), 0, v) == v + Zeros(MaxPacketBinaryLength - |v|)
  {
    var z := Zeros(MaxPacketBinaryLength);
    assert z[|v|..] == Zeros(MaxPacketBinaryLength - |v|);
  }

  /** Reset: the header bytes become zero, the payload bytes are kept. */
  function ResetBytes(b: seq<byte>): (r: seq<byte>)
    requires IsBinary(b)
    ensures IsBinary(r) && r[..PacketHeaderLength] == Zeros(PacketHeaderLength)
    ensures r[PacketHeaderLength..] == b[PacketHeaderLength..]
    ensures ProtocolOf(r) == 0 && OptionOf(r) == 0 && SizeOf(r) == 0 && DataSizeOf(r) == 0
  {
    WithBytes(b, 0, Zeros(PacketHeaderLength))
  }

  // ------------------------------------------------------------ properties

  /** Protocol set-then-get returns the same value, whatever the Binary held. */
  lemma ProtocolRoundTrip(b: seq<byte>, p: int32)
    requires IsBinary(b)
    ensures ProtocolOf(StoreProtocol(b, p)) == p
    ensures OptionOf(StoreProtocol(b, p)) == OptionOf(b) && SizeOf(StoreProtocol(b, p)) == SizeOf(b)
  {
    var r := StoreProtocol(b, p);
    assert r[4] == b[4] && r[5] == b[5] && r[6] == b[6] && r[7] == b[7];
  }

  /**
   * Setting a protocol and a payload of any legal length and reading them back
   * gives the same protocol and payload bytes.
   */
  lemma SetDataRoundTrip(b: seq<byte>, p: int32, data: seq<byte>)
    requires IsBinary(b) && |data| <= MaxPacketDataBinaryLength
    ensures var r := SetProtocolDataBytes(b, p, NonNull(data), |data|);
      && r.0 == Success && ProtocolOf(r.1) == p
      && r.1[PacketDataOffset..PacketDataOffset + |data|] == data
  {
    assert data[..|data|] == data;
  }

  /**
   * A full-size payload is reported as a success but the size field stays at the
   * header length, so the packet announces no payload at all.
   */
  lemma FullPayloadLosesSize(b: seq<byte>, p: int32, data: seq<byte>)
    requires IsBinary(b) && |data| == MaxPacketDataBinaryLength
    ensures var r := SetProtocolDataBytes(b, p, NonNull(data), |data|);
      && r.0 == Success && SizeOf(r.1) == PacketHeaderLength && DataSizeOf(r.1) == 0
  {
    var withHeader := StoreSize(StoreProtocol(b, p), PacketHeaderLength);
    assert SizeOf(withHeader) == PacketHeaderLength;
  }

  // ---------------------------------------------------------------- the class

  class Packet {
    var senderIndex: int
    const binary: array<byte>

    ghost predicate Valid() {
      binary.Length == MaxPacketBinaryLength
    }

    function Protocol(): int32
      reads binary
      requires Valid()
    {
      ProtocolOf(binary[..])
    }

    /** Size: a signed 16-bit read of the size field. */
    function Size(): (r: int)
      reads binary
      requires Valid()
      ensures -0x8000 <= r < 0x8000
    {
      SizeOf(binary[..])
    }

    /** DataSize: the payload the size field announces, 0 when that size is out of range. */
    function DataSize(): (r: int)
      reads binary
      requires Valid()
      ensures 0 <= r <= MaxPacketDataBinaryLength
      ensures PacketHeaderLength <= Size() <= MaxPacketBinaryLength ==> r == Size() - PacketHeaderLength
      ensures !(PacketHeaderLength <= Size() <= MaxPacketBinaryLength) ==> r == 0
    {
      DataSizeOf(binary[..])
    }

    /** Option: the unsigned 16-bit option field. */
    function Option(): (r: int)
      reads binary
      requires Valid()
      ensures 0 <= r < 0x1_0000
    {
      OptionOf(binary[..])
    }

    /** _GetOption */
    predicate GetOption(o: EPacketOption)
      reads binary
      requires Valid()
    {
      HasOption(binary[..], o)
    }

    /** Packet(): protocol 0 and no payload. */
    constructor Empty()
      ensures Valid() && fresh(binary) && senderIndex == 0
      ensures binary[..] == EmptyBinary()
    {
      binary := new byte[MaxPacketBinaryLength](_ => 0);
      new;
      assert binary[..] == Zeros(MaxPacketBinaryLength);
      ghost var z := binary[..];
      var _ := SetProtocolData(0, Null, 0);
      assert binary[..] == EmptyBinary() by { EmptyBinaryIsSetData(z); }
      senderIndex := 0;
    }

    /** Packet(protocol): a header-only packet. */
    constructor WithProtocol(p: int32)
      ensures Valid() && fresh(binary) && senderIndex == 0
      ensures binary[..] == SetProtocolDataBytes(Zeros(MaxPacketBinaryLength), p, Null, 0).1
      ensures Protocol() == p && Size() == PacketHeaderLength
    {
      senderIndex := 0;
      binary := new byte[MaxPacketBinaryLength](_ => 0);
      new;
      assert binary[..] == Zeros(MaxPacketBinaryLength);
      var _ := SetProtocolData(p, Null, 0);
    }

    /** Packet(protocol, data, dataSize); the SetData result is discarded, as in the source. */
    constructor WithData(p: int32, data: Nullable<seq<byte>>, n: int)
      requires CopyableData(data, n)
      ensures Valid() && fresh(binary) && senderIndex == 0
      ensures binary[..] == SetProtocolDataBytes(Zeros(MaxPacketBinaryLength), p, data, n).1
    {
      senderIndex := 0;
      binary := new byte[MaxPacketBinaryLength](_ => 0);
      new;
      ghost var z := binary[..];
      assert z == Zeros(MaxPacketBinaryLength);
      var _ := SetProtocolData(p, data, n);
    }

    /** Packet(recvBuffer, nBufferSize): the packet handed to a receive callback. */
    constructor FromRecv(recv: Nullable<seq<byte>>, n: int)
      requires CopyableRecv(recv, n)
      ensures Valid() && fresh(binary) && senderIndex == 0
      ensures binary[..] == RecvBinary(recv, n)
    {
      senderIndex := 0;
      binary := new byte[MaxPacketBinaryLength](_ => 0);
      new;
      assert binary[..] == Zeros(MaxPacketBinaryLength);
      if recv.Null? || n < PacketHeaderLength || n > MaxPacketBinaryLength {
        ghost var z := binary[..];
        var _ := SetProtocolData(0, Null, 0);
        EmptyBinaryIsSetData(z);
        return;
      }
      BlockCopy(recv.value, 0, n);
      CopyIntoZeros(recv.value[..n]);
    }

    /** Buffer.BlockCopy(src, 0, Binary, at, count). */
    method BlockCopy(src: seq<byte>, at: nat, count: nat)
      requires Valid() && count <= |src| && at + count <= binary.Length
      modifies binary
      ensures binary[..] == WithBytes(old(binary[..]), at, src[..count])
    {
      forall i | at <= i < at + count {
        binary[i] := src[i - at];
      }
      assert binary[..] == WithBytes(old(binary[..]), at, src[..count]);
    }

    method SetProtocol(p: int32)
      requires Valid()
      modifies binary
      ensures binary[..] == StoreProtocol(old(binary[..]), p)
    {
      BlockCopy(Int32Bytes(p), PacketProtocolOffset, PacketProtocolLength);
    }

    method SetSize(v: int)
      requires Valid()
      modifies binary
      ensures binary[..] == StoreSize(old(binary[..]), v)
    {
      if v <= 0 || v >= MaxPacketBinaryLength {
        return;
      }
      BlockCopy(Int16Bytes(v), PacketSizeOffset, PacketSizeLength);
    }

    method SetOptionValue(o: int)
      requires Valid() && 0 <= o < 0x1_0000
      modifies binary
      ensures binary[..] == StoreOption(old(binary[..]), o)
    {
      BlockCopy(UInt16Bytes(o), PacketOptionOffset, PacketOptionLength);
    }

    /** _SetOption */
    method SetOption(o: EPacketOption, onoff: bool)
      requires Valid()
      modifies binary
      ensures binary[..] == WithOption(old(binary[..]), o, onoff)
    {
      FlagUpdate(binary[4], binary[5], o, onoff);
      SetOptionValue(WithBit(Option(), o, onoff));
    }

    /** SetData(data, dataSize) */
    method SetData(data: Nullable<seq<byte>>, n: int) returns (err: ENetError)
      requires Valid() && CopyableData(data, n)
      modifies binary
      ensures (err, binary[..]) == SetDataBytes(old(binary[..]), data, n)
    {
      if n < 0 {
        return Packet_InvalidDataSize;
      }
      if n > MaxPacketDataBinaryLength {
        return Packet_DataSizeIsTooLarge;
      }
      if n > 0 {
        if data.Null? {
          return Packet_DataIsNull;
        }
        BlockCopy(data.value, PacketDataOffset, n);
      }
      SetSize(PacketHeaderLength + n);
      return Success;
    }

    /** SetData(protocol, data, dataSize) */
    method SetProtocolData(p: int32, data: Nullable<seq<byte>>, n: int) returns (err: ENetError)
      requires Valid() && CopyableData(data, n)
      modifies binary
      ensures (err, binary[..]) == SetProtocolDataBytes(old(binary[..]), p, data, n)
    {
      SetProtocol(p);
      SetSize(PacketHeaderLength);
      err := SetData(data, n);
    }

    method CopyRecvData(recv: Nullable<seq<byte>>, n: int) returns (err: ENetError)
      requires Valid() && CopyableRecv(recv, n)
      modifies binary
      ensures (err, binary[..]) == CopyRecvBytes(old(binary[..]), recv, n)
    {
      if recv.Null? {
        return Packet_DataIsNull;
      }
      if n < PacketHeaderLength {
        return Packet_InvalidDataSize;
      }
      if n > MaxPacketBinaryLength {
        return Packet_DataSizeIsTooLarge;
      }
      BlockCopy(recv.value, 0, n);
      return Success;
    }

    /** Reset: clears the sender tag and the header only. */
    method Reset()
      requires Valid()
      modifies this, binary
      ensures senderIndex == 0 && binary[..] == ResetBytes(old(binary[..]))
    {
      senderIndex := 0;
      BlockCopy(Zeros(PacketHeaderLength), 0, PacketHeaderLength);
      assert Zeros(PacketHeaderLength)[..PacketHeaderLength] == Zeros(PacketHeaderLength);
    }
  }
}
