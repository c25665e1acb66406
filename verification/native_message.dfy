/** NativeMessage: a CAN frame over the driver's CANMsg structure. The
    validating constructor packs the extended-ID flag, the remote-frame flag
    and the 6-bit reserver into the flags byte; the getters unpack them. */
module Messages {
  import opened JavaLang
  import opened Wrappers
  import opened NativeAccess

  /** The IllegalArgumentException raised by the validating constructor. */
  datatype ArgumentError = ReserverTooWide | DataTooLong

  function ArgumentMessage(e: ArgumentError): string {
    match e
    case ReserverTooWide => "Reserver has more then 6 bits!"
    case DataTooLong => "Data is more than 8 bytes long!"
  }

  /** The flags byte of a frame: reserver in the low six bits, bit 7 for an
      extended id, bit 6 for a remote frame. */
  function FlagsByte(extendedID: bool, remoteFrame: bool, reserver: bv8): bv8 {
    reserver | (if extendedID then ExtendedFlag else 0) | (if remoteFrame then RemoteFrameFlag else 0)
  }

  /** isExtendedID: bit 7 of the flags byte. */
  predicate IsExtendedID(m: CanMsg) {
    m.flags & ExtendedFlag == ExtendedFlag
  }

  /** isRemoteFrame: bit 6 of the flags byte. */
  predicate IsRemoteFrame(m: CanMsg) {
    m.flags & RemoteFrameFlag == RemoteFrameFlag
  }

  /** getReserver: the low six bits of the flags byte. */
  function Reserver(m: CanMsg): (r: bv8)
    ensures r as int <= 63
  {
    m.flags & ReserverBits
  }

  /** A reserver that fits in six bits is read back with both flags. */
  lemma FlagsByteDecode(extendedID: bool, remoteFrame: bool, reserver: bv8, m: CanMsg)
    requires reserver & 0xC0 == 0
    requires m.flags == FlagsByte(extendedID, remoteFrame, reserver)
    ensures IsExtendedID(m) == extendedID
    ensures IsRemoteFrame(m) == remoteFrame
    ensures Reserver(m) == reserver
  {
  }

  /** Every flags byte is the packing of what its getters read, so packing
      is a bijection between valid triples and bytes. */
  lemma FlagsByteComplete(m: CanMsg)
    ensures FlagsByte(IsExtendedID(m), IsRemoteFrame(m), Reserver(m)) == m.flags
  {
  }

  /** The validating constructor. The reserver check comes first, so a frame
      bad in both ways reports the reserver. The length byte is not checked
      against anything, and the data is stored as given. */
  function NewMessage(id: Int32, timestamp: Int32, extendedID: bool, remoteFrame: bool,
                      reserver: bv8, length: bv8, data: seq<bv8>): (r: Result<CanMsg, ArgumentError>)
    ensures r.Success? <==> reserver & 0xC0 == 0 && |data| <= DataBytes
    ensures r.Failure? ==> (r.error == ReserverTooWide <==> reserver & 0xC0 != 0)
    ensures r.Success? ==>
      && IsExtendedID(r.value) == extendedID && IsRemoteFrame(r.value) == remoteFrame
      && Reserver(r.value) == reserver
      && r.value.id == id && r.value.timestamp == timestamp
      && r.value.length == length && r.value.data == data
  {
    if reserver & 0xC0 != 0 then Failure(ReserverTooWide)
    else if |data| > DataBytes then Failure(DataTooLong)
    else
      var m := CanMsg(id, timestamp, FlagsByte(extendedID, remoteFrame, reserver), length, data);
      FlagsByteDecode(extendedID, remoteFrame, reserver, m);
      Success(m)
  }

  /** The reserver check, read as a Java byte: only 0..63 pass, so every
      negative byte is rejected. */
  lemma ReserverCheckSigned(reserver: bv8)
    ensures reserver & 0xC0 == 0 <==> 0 <= SignedByte(reserver) < 64
  {
  }

  /** Each flag depends on its own bit only: flipping any other bits of the
      flags byte leaves it unchanged, flipping its bit toggles it. */
  lemma FlagsOwnBit(m: CanMsg, b: bv8)
    ensures b & ExtendedFlag == 0 ==> IsExtendedID(m.(flags := m.flags ^ b)) == IsExtendedID(m)
    ensures b & RemoteFrameFlag == 0 ==> IsRemoteFrame(m.(flags := m.flags ^ b)) == IsRemoteFrame(m)
    ensures IsExtendedID(m.(flags := m.flags ^ ExtendedFlag)) != IsExtendedID(m)
    ensures IsRemoteFrame(m.(flags := m.flags ^ RemoteFrameFlag)) != IsRemoteFrame(m)
  {
  }

  /** The bytes of a frame that count: the first `length` data bytes. */
  function Payload(m: CanMsg): (p: seq<bv8>)
    ensures |p| <= m.length as int && p <= m.data
  {
    if m.length as int <= |m.data| then m.data[..m.length] else m.data
  }

  /** Bytes after the frame size are padding: changing them leaves the payload alone. */
  lemma PaddingIgnored(m: CanMsg, padding: seq<bv8>)
    requires m.length as int <= |m.data|
    ensures Payload(m.(data := m.data + padding)) == Payload(m)
  {
    assert (m.data + padding)[..m.length] == m.data[..m.length];
  }

  // ---------------------------------------------------------------------
  // Fixed-width digit strings (toHexString / toBinaryString helpers)

  /** `r` is `digits` cut to its last `len` characters or left-padded with '0' to `len`. */
  ghost predicate Fitted(r: string, digits: string, len: nat) {
    if |digits| >= len then r == digits[|digits| - len..] else r == Zeros(len - |digits|) + digits
  }

  /** The shared body of toHexString(int, int) and toBinaryString(int, int):
      drop the leading digits beyond `len`, then insert '0's at the front until
      the string is `len` long. */
  method FitToWidth(digits: string, len: nat) returns (r: string)
    ensures |r| == len
    ensures Fitted(r, digits, len)
  {
    r := digits;
    if |r| > len {
      r := r[|r| - len..];
    }
    ghost var core := r;
    while |r| < len
      invariant |core| <= |r| <= len
      invariant r == Zeros(|r| - |core|) + core
      invariant |digits| >= len ==> r == digits[|digits| - len..]
      invariant |digits| < len ==> core == digits
      decreases len - |r|
    {
      ghost var k := |r| - |core|;
      assert ['0'] + Zeros(k) == Zeros(k + 1);
      r := ['0'] + r;
    }
  }

  /** A fitted digit string of `v` is a digit string denoting `v` mod base^len. */
  lemma FittedValue(v: nat, base: nat, len: nat, r: string)
    requires Radix(base)
    requires Fitted(r, Digits(v, base), len)
    ensures IsDigitString(r, base)
    ensures Value(r, base) == v % Pow(base, len)
  {
    var h := Digits(v, base);
    ValueOfDigits(v, base);
    if |h| >= len {
      SuffixValue(h, len, base);
      SuffixDigits(h, len, base);
    } else {
      PaddedValueOf(h, v, base, len);
    }
  }

  /** Padding a digit string of `v` to `len` leaves `v`, which is below base^len. */
  lemma PaddedValueOf(h: string, v: nat, base: nat, len: nat)
    requires Radix(base) && IsDigitString(h, base) && Value(h, base) == v && |h| < len
    ensures IsDigitString(Zeros(len - |h|) + h, base) && Value(Zeros(len - |h|) + h, base) == v % Pow(base, len)
  {
    PaddedValue(h, len - |h|, base);
    PaddedDigits(h, len - |h|, base);
    ValueBound(h, base);
    PowMonotone(base, |h|, len);
    SmallMod(v, Pow(base, len));
  }

  /** toHexString(int, int): exactly `len` lower-case hex digits, the low-order
      digits of the int's 32-bit pattern. */
  method ToHexString(value: Int32, len: nat) returns (r: string)
    ensures |r| == len
    ensures IsDigitString(r, 16)
    ensures Value(r, 16) == Unsigned32(value) % Pow(16, len)
  {
    r := FitToWidth(HexString(value), len);
    FittedValue(Unsigned32(value), 16, len, r);
  }

  /** toBinaryString(int, int): exactly `len` binary digits, the low-order
      bits of the int's 32-bit pattern. */
  method ToBinaryString(value: Int32, len: nat) returns (r: string)
    ensures |r| == len
    ensures IsDigitString(r, 2)
    ensures Value(r, 2) == Unsigned32(value) % Pow(2, len)
  {
    r := FitToWidth(BinaryString(value), len);
    FittedValue(Unsigned32(value), 2, len, r);
  }

  lemma {:induction false} PowAdd(base: nat, m: nat, n: nat)
    requires base >= 1
    ensures Pow(base, m + n) == Pow(base, m) * Pow(base, n)
    decreases n
  {
    if n > 0 {
      PowAdd(base, m, n - 1);
      MulSwap(base, Pow(base, m), Pow(base, n - 1));
    }
  }

  lemma MulSwap(a: int, b: int, c: int)
    ensures a * (b * c) == b * (a * c)
  {
  }

  /** 16^8 and 2^32 are 2^32; 16^2 and 2^8 are 2^8. */
  lemma WidthPowers()
    ensures Pow(16, 8) == TwoTo32 && Pow(2, 32) == TwoTo32
    ensures Pow(16, 2) == 0x100 && Pow(2, 8) == 0x100
  {
    assert Pow(2, 4) == 16;
    PowAdd(2, 4, 4);
    PowAdd(2, 8, 8);
    PowAdd(2, 16, 16);
    assert Pow(16, 2) == 0x100;
    PowAdd(16, 2, 2);
    PowAdd(16, 4, 4);
  }

  /** toHexString(int): all eight hex digits; the int is read back exactly. */
  method ToHexStringInt(value: Int32) returns (r: string)
    ensures |r| == 8 && IsDigitString(r, 16)
    ensures Value(r, 16) == Unsigned32(value)
  {
    r := ToHexString(value, 8);
    WidthPowers();
    SmallMod(Unsigned32(value), TwoTo32);
  }

  /** toBinaryString(int): all 32 bits; the int is read back exactly. */
  method ToBinaryStringInt(value: Int32) returns (r: string)
    ensures |r| == 32 && IsDigitString(r, 2)
    ensures Value(r, 2) == Unsigned32(value)
  {
    r := ToBinaryString(value, 32);
    WidthPowers();
    SmallMod(Unsigned32(value), TwoTo32);
  }

  /** A byte widened to int keeps its bit pattern in the low eight bits. */
  lemma SignExtendedLowByte(b: bv8)
    ensures Unsigned32(SignedByte(b)) % 0x100 == b as int
  {
    if b >= 0x80 {
      assert Unsigned32(SignedByte(b)) == 0xFF_FFFF * 0x100 + b as int;
      ModOfMultiplePlus(0xFF_FFFF, 0x100, b as int);
    }
  }

  /** toHexString(byte): the byte, sign-extended to int, as two hex digits;
      the byte is read back exactly. */
  method ToHexStringByte(b: bv8) returns (r: string)
    ensures |r| == 2 && IsDigitString(r, 16)
    ensures Value(r, 16) == b as int
  {
    r := ToHexString(SignedByte(b), 2);
    WidthPowers();
    SignExtendedLowByte(b);
  }

  /** toBinaryString(byte): the byte, sign-extended to int, as eight binary
      digits; the byte is read back exactly. */
  method ToBinaryStringByte(b: bv8) returns (r: string)
    ensures |r| == 8 && IsDigitString(r, 2)
    ensures Value(r, 2) == b as int
  {
    r := ToBinaryString(SignedByte(b), 8);
    WidthPowers();
    SignExtendedLowByte(b);
  }
}
