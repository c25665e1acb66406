/** The native interface of the CANUSB driver: its constants, the CANMsg
    structure, and the driver itself as an oracle. Every driver call is
    appended to the device's log and answered by `script`, a function of the
    calls made so far and the call being made; the driver's documented
    return contracts become predicates on `script`. */
module NativeAccess {
  import opened JavaLang

  // ---------------------------------------------------------------------
  // Status bits (canusb_Status)

  const ReceiveFifoFullBit: bv32 := 0x01
  const TransmitFifoFullBit: bv32 := 0x02
  const ErrorWarningBit: bv32 := 0x04
  const DataOverrunBit: bv32 := 0x08
  const ErrorPassiveBit: bv32 := 0x20
  const ArbitrationLostBit: bv32 := 0x40
  const BusErrorBit: bv32 := 0x80

  /** The seven status bits, in declaration order. */
  const StatusBits: seq<bv32> := [ReceiveFifoFullBit, TransmitFifoFullBit, ErrorWarningBit,
    DataOverrunBit, ErrorPassiveBit, ArbitrationLostBit, BusErrorBit]

  // ---------------------------------------------------------------------
  // Acceptance filter settings that let every frame through

  const AcceptanceCodeAll: Int32 := 0x0000_0000
  /** 0xFFFFFFFF, which as a Java int is -1. */
  const AcceptanceMaskAll: Int32 := -1

  // ---------------------------------------------------------------------
  // CANMsg flags byte: [extended_id:1][RTR:1][reserver:6]

  const ExtendedFlag: bv8 := 0x80
  const RemoteFrameFlag: bv8 := 0x40
  const ReserverBits: bv8 := 0x3F

  // ---------------------------------------------------------------------
  // Return codes

  const ErrorOk: int := 1
  const ErrorGeneral: int := -1
  const ErrorOpenSubsystem: int := -2
  const ErrorCommandSubsystem: int := -3
  const ErrorNotOpen: int := -4
  const ErrorTxFifoFull: int := -5
  const ErrorInvalidParam: int := -6
  const ErrorNoMessage: int := -7
  const ErrorMemoryError: int := -8
  const ErrorNoDevice: int := -9
  const ErrorTimeout: int := -10
  const ErrorInvalidHardware: int := -11

  /** The failure codes, in declaration order. */
  const FailureCodes: seq<int> := [ErrorGeneral, ErrorOpenSubsystem, ErrorCommandSubsystem,
    ErrorNotOpen, ErrorTxFifoFull, ErrorInvalidParam, ErrorNoMessage, ErrorMemoryError,
    ErrorNoDevice, ErrorTimeout, ErrorInvalidHardware]

  // ---------------------------------------------------------------------
  // Open flags

  const FlagTimestamp: bv32 := 0x0001
  const FlagQueueReplace: bv32 := 0x0002
  const FlagBlock: bv32 := 0x0004
  const FlagSlow: bv32 := 0x0008
  const FlagNoLocalSend: bv32 := 0x0010

  /** The open flags, in declaration order. */
  const OpenFlags: seq<bv32> := [FlagTimestamp, FlagQueueReplace, FlagBlock, FlagSlow, FlagNoLocalSend]

  // ---------------------------------------------------------------------
  // The CANMsg structure

  /** A CAN frame as the driver stores it. The driver always fills all
      eight data bytes; frames built by the library may carry fewer. */
  datatype CanMsg = CanMsg(id: Int32, timestamp: Int32, flags: bv8, length: bv8, data: seq<bv8>)

  /** Number of data bytes in the native structure. */
  const DataBytes: nat := 8

  /** The structure's fields in memory order. */
  const FieldOrder: seq<string> := ["id", "timestamp", "flags", "length", "data"]

  /** Size in bytes of the structure's fields: two ints, two bytes, eight
      data bytes. JNA's default alignment pads the structure to 20 bytes;
      the two trailing padding bytes carry nothing and are not modelled. */
  const StructSize: nat := 18

  /** An int as four bytes, least significant first (the x86 order of the
      Windows driver). */
  function Int32Bytes(x: Int32): (b: seq<bv8>)
    ensures |b| == 4
  {
    var u := Unsigned32(x);
    [(u % 0x100) as bv8, (u / 0x100 % 0x100) as bv8, (u / 0x1_0000 % 0x100) as bv8, (u / 0x100_0000) as bv8]
  }

  function Int32Of(b: seq<bv8>): Int32
    requires |b| == 4
  {
    var u := b[0] as int + 0x100 * b[1] as int + 0x1_0000 * b[2] as int + 0x100_0000 * b[3] as int;
    if u >= 0x8000_0000 then u - TwoTo32 else u
  }

  /** The bytes of the structure, fields in FieldOrder. */
  function EncodeStruct(m: CanMsg): (b: seq<bv8>)
    requires |m.data| == DataBytes
    ensures |b| == StructSize
    ensures b[8] == m.flags && b[9] == m.length && b[10..] == m.data
  {
    Int32Bytes(m.id) + Int32Bytes(m.timestamp) + [m.flags, m.length] + m.data
  }

  function DecodeStruct(b: seq<bv8>): (m: CanMsg)
    requires |b| == StructSize
    ensures |m.data| == DataBytes
  {
    CanMsg(Int32Of(b[0..4]), Int32Of(b[4..8]), b[8], b[9], b[10..])
  }

  lemma ByteCast(x: int)
    requires 0 <= x < 0x100
    ensures (x as bv8) as int == x
  {
    assert x % 0x100 == x;
  }

  lemma ByteCastBack(b: bv8)
    ensures (b as int) as bv8 == b
  {
  }

  /** The four base-256 digits of a 32-bit unsigned value recombine to it. */
  lemma ByteDigits(u: nat)
    requires u < TwoTo32
    ensures u == u % 0x100 + 0x100 * (u / 0x100 % 0x100) + 0x1_0000 * (u / 0x1_0000 % 0x100) + 0x100_0000 * (u / 0x100_0000)
  {
    var r1 := u / 0x100;
    var r2 := r1 / 0x100;
    var r3 := r2 / 0x100;
    assert u == r1 * 0x100 + u % 0x100;
    assert r1 == r2 * 0x100 + r1 % 0x100;
    assert r2 == r3 * 0x100 + r2 % 0x100;
    assert u / 0x1_0000 == r2;
    assert u / 0x100_0000 == r3;
  }

  lemma Int32BytesRoundTrip(x: Int32)
    ensures Int32Of(Int32Bytes(x)) == x
  {
    var u := Unsigned32(x);
    var b := Int32Bytes(x);
    ByteCast(u % 0x100);
    ByteCast(u / 0x100 % 0x100);
    ByteCast(u / 0x1_0000 % 0x100);
    ByteCast(u / 0x100_0000);
    ByteDigits(u);
    assert b[0] as int + 0x100 * b[1] as int + 0x1_0000 * b[2] as int + 0x100_0000 * b[3] as int == u;
  }

  /** Splitting `low + scale * high` at a power of 256 recovers both parts. */
  lemma Peel(low: int, high: nat, scale: nat)
    requires scale == 0x100 || scale == 0x1_0000 || scale == 0x100_0000
    requires 0 <= low < scale
    ensures (low + scale * high) % scale == low
    ensures (low + scale * high) / scale == high
  {
  }

  /** The base-256 digits of `b0 + 256 b1 + 65536 b2 + 16777216 b3` are the b's. */
  lemma DigitsOfBytes(b0: int, b1: int, b2: int, b3: int, u: int)
    requires 0 <= b0 < 0x100 && 0 <= b1 < 0x100 && 0 <= b2 < 0x100 && 0 <= b3 < 0x100
    requires u == b0 + 0x100 * b1 + 0x1_0000 * b2 + 0x100_0000 * b3
    ensures u % 0x100 == b0 && u / 0x100 % 0x100 == b1
    ensures u / 0x1_0000 % 0x100 == b2 && u / 0x100_0000 == b3
  {
    Peel(b0, b1 + 0x100 * b2 + 0x1_0000 * b3, 0x100);
    var lo2, hi2 := b0 + 0x100 * b1, b2 + 0x100 * b3;
    var q1 := u / 0x100;
    assert q1 == b1 + 0x100 * hi2;
    Peel(b1, hi2, 0x100);
    Peel(b2, b3, 0x100);
    assert u == lo2 + 0x1_0000 * hi2;
    Peel(lo2, hi2, 0x1_0000);
    var lo3 := b0 + 0x100 * b1 + 0x1_0000 * b2;
    assert u == lo3 + 0x100_0000 * b3;
    Peel(lo3, b3, 0x100_0000);
  }

  lemma UnsignedOfInt32Of(b: seq<bv8>)
    requires |b| == 4
    ensures Unsigned32(Int32Of(b)) == b[0] as int + 0x100 * b[1] as int + 0x1_0000 * b[2] as int + 0x100_0000 * b[3] as int
  {
  }

  lemma BytesOfDigits(b: seq<bv8>, u: int)
    requires |b| == 4
    requires u % 0x100 == b[0] as int && u / 0x100 % 0x100 == b[1] as int
    requires u / 0x1_0000 % 0x100 == b[2] as int && u / 0x100_0000 == b[3] as int
    ensures [(u % 0x100) as bv8, (u / 0x100 % 0x100) as bv8, (u / 0x1_0000 % 0x100) as bv8, (u / 0x100_0000) as bv8] == b
  {
    assert (u % 0x100) as bv8 == b[0] by { ByteCastBack(b[0]); }
    assert (u / 0x100 % 0x100) as bv8 == b[1] by { ByteCastBack(b[1]); }
    assert (u / 0x1_0000 % 0x100) as bv8 == b[2] by { ByteCastBack(b[2]); }
    assert (u / 0x100_0000) as bv8 == b[3] by { ByteCastBack(b[3]); }
  }

  lemma BytesInt32RoundTrip(b: seq<bv8>)
    requires |b| == 4
    ensures Int32Bytes(Int32Of(b)) == b
  {
    var x := Int32Of(b);
    var u := Unsigned32(x);
    UnsignedOfInt32Of(b);
    DigitsOfBytes(b[0] as int, b[1] as int, b[2] as int, b[3] as int, u);
    BytesOfDigits(b, u);
    assert Int32Bytes(x) == [(u % 0x100) as bv8, (u / 0x100 % 0x100) as bv8, (u / 0x1_0000 % 0x100) as bv8, (u / 0x100_0000) as bv8];
  }

  /** Reading back the bytes of a structure gives the structure. */
  lemma StructRoundTrip(m: CanMsg)
    requires |m.data| == DataBytes
    ensures DecodeStruct(EncodeStruct(m)) == m
  {
    var b := EncodeStruct(m);
    assert b[0..4] == Int32Bytes(m.id);
    assert b[4..8] == Int32Bytes(m.timestamp);
    Int32BytesRoundTrip(m.id);
    Int32BytesRoundTrip(m.timestamp);
  }

  /** Every 18-byte image is the encoding of exactly one structure. */
  lemma StructBytesRoundTrip(b: seq<bv8>)
    requires |b| == StructSize
    ensures EncodeStruct(DecodeStruct(b)) == b
  {
    BytesInt32RoundTrip(b[0..4]);
    BytesInt32RoundTrip(b[4..8]);
    assert b == b[0..4] + b[4..8] + [b[8], b[9]] + b[10..];
  }

  // ---------------------------------------------------------------------
  // Facts about the constants

  /** Each status constant is a single bit, the seven are distinct, their
      union is 0xEF and bit 0x10 is unused. */
  lemma StatusBitsShape()
    ensures forall i :: 0 <= i < |StatusBits| ==> StatusBits[i] != 0 && StatusBits[i] & (StatusBits[i] - 1) == 0
    ensures forall i, j :: 0 <= i < j < |StatusBits| ==> StatusBits[i] & StatusBits[j] == 0
    ensures StatusBits[0] | StatusBits[1] | StatusBits[2] | StatusBits[3]
          | StatusBits[4] | StatusBits[5] | StatusBits[6] == 0xEF
    ensures forall i :: 0 <= i < |StatusBits| ==> StatusBits[i] & 0x10 == 0
  {
  }

  /** The extended and remote flags and the reserver field are pairwise
      disjoint and together cover the flags byte. */
  lemma FlagsBytePartition()
    ensures ExtendedFlag & RemoteFrameFlag == 0
    ensures ExtendedFlag & ReserverBits == 0 && RemoteFrameFlag & ReserverBits == 0
    ensures ExtendedFlag | RemoteFrameFlag | ReserverBits == 0xFF
  {
  }

  /** OK is 1 and the failure codes are the distinct values -1 down to -11. */
  lemma ReturnCodesShape()
    ensures |FailureCodes| == 11
    ensures forall i :: 0 <= i < |FailureCodes| ==> FailureCodes[i] == -(i + 1)
    ensures ErrorOk !in FailureCodes
  {
  }

  /** The open flags are the distinct powers of two 0x01 to 0x10. */
  lemma OpenFlagsShape()
    ensures forall i :: 0 <= i < |OpenFlags| ==> OpenFlags[i] == 1 << i
  {
  }

  /** The accept-all pair: code of all zeros, mask of all ones. */
  lemma AcceptAllPatterns()
    ensures Bits32(AcceptanceCodeAll) == 0x0000_0000
    ensures Bits32(AcceptanceMaskAll) == 0xFFFF_FFFF
  {
  }

  // ---------------------------------------------------------------------
  // The driver as an oracle

  /** One call into the driver, with the arguments that matter to the model. */
  datatype DeviceCall =
    | GetFirstAdapter
    | GetNextAdapter
    | Open(adapterID: string, bitrate: string, code: Int32, mask: Int32, flags: bv32)
    | Close(handle: Int32)
    | GetStatus(handle: Int32)
    | VersionInfo(handle: Int32)
    | Read(handle: Int32)
    | SetReceiveCallBack(handle: Int32, registers: bool)
    | Write(handle: Int32, msg: CanMsg)

  /** The driver's answer: the return value, the text it left in a string
      buffer (adapter id or version string, up to the NUL) and the frame it
      left in the message buffer. */
  datatype Reply = Reply(rc: Int32, text: string, frame: CanMsg)

  /** The driver: `script` answers a call given the calls made before it. */
  datatype Device = Device(script: (seq<DeviceCall>, DeviceCall) -> Reply, log: seq<DeviceCall>)

  /** Makes one driver call. */
  function Call(d: Device, c: DeviceCall): (Reply, Device) {
    (d.script(d.log, c), d.(log := d.log + [c]))
  }

  /** Whether, after the calls `h`, the driver holds a receive callback for
      `handle`: the last registration call the driver accepted (answered
      ERROR_CANUSB_OK) decides. */
  ghost function CallbackRegistered(d: Device, h: seq<DeviceCall>, handle: Int32): bool
    decreases |h|
  {
    if |h| == 0 then false
    else
      var c := h[|h| - 1];
      var before := h[..|h| - 1];
      if c.SetReceiveCallBack? && c.handle == handle && d.script(before, c).rc == ErrorOk then c.registers
      else CallbackRegistered(d, before, handle)
  }

  /** Driver contract of canusb_Read: while a callback is registered the
      call does not work and answers ERROR_CANUSB_GENERAL. */
  ghost predicate RefusesReadWhileCallback(d: Device) {
    forall h: seq<DeviceCall>, handle: Int32 ::
      CallbackRegistered(d, h, handle) ==> d.script(h, Read(handle)).rc == ErrorGeneral
  }

  /** The number of canusb_getNextAdapter calls since the last canusb_getFirstAdapter. */
  function NextCallsSinceFirst(h: seq<DeviceCall>): nat
    decreases |h|
  {
    if |h| == 0 then 0
    else if h[|h| - 1].GetFirstAdapter? then 0
    else if h[|h| - 1].GetNextAdapter? then NextCallsSinceFirst(h[..|h| - 1]) + 1
    else NextCallsSinceFirst(h[..|h| - 1])
  }

  /** Driver contract of adapter enumeration over the attached adapters
      `ids`: canusb_getFirstAdapter reports their number and the first id;
      canusb_getNextAdapter then returns them in order, for ever. */
  ghost predicate EnumeratesCyclically(d: Device, ids: seq<string>) {
    && 0 < |ids| < 0x8000_0000
    && (forall h :: d.script(h, GetFirstAdapter).rc == |ids| && d.script(h, GetFirstAdapter).text == ids[0])
    && (forall h :: d.script(h, GetNextAdapter).rc > 0
          && d.script(h, GetNextAdapter).text == ids[(NextCallsSinceFirst(h) + 1) % |ids|])
  }
}
