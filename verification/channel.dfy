/** Channel: one open handle on an adapter. Every operation makes exactly one
    driver call and turns its return value into a result by a fixed policy:
    read and getStatus accept non-negative values, everything else accepts
    only ERROR_CANUSB_OK. The channel keeps no open/closed flag of its own,
    so after close it relays whatever the driver answers. */
module Channels {
  import opened JavaLang
  import opened Wrappers
  import opened NativeAccess
  import opened CanusbErrors
  import opened Flags
  import opened Bitrates
  import opened Acceptance
  import opened StatusFlags
  import opened Messages

  /** A receive callback supplied by the application; `name` is its toString. */
  datatype Callback = Callback(name: string)

  /** A channel: the adapter it was opened on, the driver handle and the
      callback the driver currently holds for it, as far as the channel knows. */
  datatype Channel = Channel(adapterID: string, handle: Int32, callback: Option<Callback>)

  /** The result of a call that yields a value, and the driver after it. */
  datatype Answer<T> = Answer(result: Result<T, CanusbError>, device: Device)

  /** The result of a call that yields nothing, and the channel and driver after it. */
  datatype Effect = Effect(outcome: Outcome<CanusbError>, channel: Channel, device: Device)

  /** A frame handed to write: one of the library's own frames, or a frame of
      another CANMessage class, given by what its getters return. */
  datatype Frame =
    | Native(msg: CanMsg)
    | Foreign(id: Int32, timestamp: Int32, extendedID: bool, remoteFrame: bool,
              reserver: bv8, length: bv8, data: seq<bv8>)

  /** The error raised by write: a driver error or the constructor's argument check. */
  datatype WriteError = DriverError(error: CanusbError) | IllegalArgument(argument: ArgumentError)

  /** The detail texts of the channel's exceptions; each is followed by the
      adapter id and "!". */
  const OpenText: string := "Can't open channel to adapter "
  const CloseText: string := "Error while closing channel to adapter "
  const StatusText: string := "Can't get status from adapter "
  const VersionText: string := "Can't get version info from adapter "
  const ReadText: string := "Can't read from adapter "
  const CallbackSetText: string := "Can't set receive call back to "
  const OnAdapterText: string := " on adapter "
  const WriteText: string := "Can't write to adapter "

  /** The one-byte buffer substituted for the data of an empty foreign frame. */
  const DummyByte: seq<bv8> := [0]

  // ---------------------------------------------------------------------
  // Open

  /** The open-flags word: the flags OR-ed together from left to right. */
  function CombineFlags(fs: seq<Flag>): bv32 {
    if |fs| == 0 then 0 else CombineFlags(fs[..|fs| - 1]) | NativeFlag(fs[|fs| - 1])
  }

  /** The flags an array names. */
  function FlagSet(fs: seq<Flag>): set<Flag> {
    set f | f in fs
  }

  /** The combined word is the word of the set of flags given: order and
      repetition do not matter. */
  lemma {:induction false} CombineFlagsIsMask(fs: seq<Flag>)
    ensures CombineFlags(fs) == MaskOf(FlagSet(fs))
  {
    if |fs| > 0 {
      var init := fs[..|fs| - 1];
      var last := fs[|fs| - 1];
      CombineFlagsIsMask(init);
      MaskOfInsert(FlagSet(init), last);
      assert FlagSet(fs) == FlagSet(init) + {last};
    }
  }

  /** Two flag arrays naming the same flags give the same word, and arrays
      naming different flags give different words. */
  lemma CombineFlagsSameSet(fs: seq<Flag>, gs: seq<Flag>)
    ensures CombineFlags(fs) == CombineFlags(gs) <==> FlagSet(fs) == FlagSet(gs)
  {
    CombineFlagsIsMask(fs);
    CombineFlagsIsMask(gs);
    if CombineFlags(fs) == CombineFlags(gs) {
      MaskOfInjective(FlagSet(fs), FlagSet(gs));
    }
  }

  /** The driver call made by the constructor. */
  function OpenCall(adapterID: string, bitrate: Bitrate, code: AcceptanceCode, mask: AcceptanceMask,
                    flags: seq<Flag>): DeviceCall {
    Open(adapterID, Token(bitrate), code.code, mask.mask, CombineFlags(flags))
  }

  /** new Channel(...): opens the adapter. A handle of zero or below is
      raised as the error it codes for (zero as the general error); a
      positive handle gives a channel with no callback. */
  function OpenChannel(d: Device, adapterID: string, bitrate: Bitrate, code: AcceptanceCode,
                       mask: AcceptanceMask, flags: seq<Flag>): (r: Answer<Channel>)
    ensures var rc := d.script(d.log, OpenCall(adapterID, bitrate, code, mask, flags)).rc;
      && r.device.log == d.log + [Open(adapterID, Token(bitrate), code.code, mask.mask, MaskOf(FlagSet(flags)))] && r.device.script == d.script
      && (r.result.Success? <==> rc > 0)
      && (r.result.Success? ==> r.result.value == Channel(adapterID, rc, None))
      && (r.result.Failure? ==> r.result.error.kind == KindOf(rc))
  {
    CombineFlagsIsMask(flags);
    var (reply, d') := Call(d, OpenCall(adapterID, bitrate, code, mask, flags));
    if reply.rc <= 0 then
      match ThrowOnErrorCode(reply.rc, OpenText + adapterID + "!")
      case Fail(e) => Answer(Failure(e), d')
      case Pass => assert false; Answer(Success(Channel(adapterID, reply.rc, None)), d')
    else
      Answer(Success(Channel(adapterID, reply.rc, None)), d')
  }

  // ---------------------------------------------------------------------
  // The calls on an open handle

  /** close: succeeds exactly when the driver answers ERROR_CANUSB_OK. */
  function Close(ch: Channel, d: Device): (r: Answer<()>)
    ensures var rc := d.script(d.log, DeviceCall.Close(ch.handle)).rc;
      && r.device.log == d.log + [DeviceCall.Close(ch.handle)] && r.device.script == d.script
      && (r.result.Success? <==> rc == ErrorOk)
      && (r.result.Failure? ==> r.result.error.kind == KindOf(rc))
  {
    var (reply, d') := Call(d, DeviceCall.Close(ch.handle));
    match ThrowOnErrorCode(reply.rc, CloseText + ch.adapterID + "!")
    case Pass => Answer(Success(()), d')
    case Fail(e) => Answer(Failure(e), d')
  }

  /** getStatus: a negative answer is raised; any other answer, zero
      included, is the status word. */
  function GetStatus(ch: Channel, d: Device): (r: Answer<Status>)
    ensures var rc := d.script(d.log, DeviceCall.GetStatus(ch.handle)).rc;
      && r.device.log == d.log + [DeviceCall.GetStatus(ch.handle)] && r.device.script == d.script
      && (r.result.Success? <==> rc >= 0)
      && (r.result.Success? ==> r.result.value == StatusOf(rc))
      && (r.result.Failure? ==> r.result.error.kind == KindOf(rc))
  {
    var (reply, d') := Call(d, DeviceCall.GetStatus(ch.handle));
    if reply.rc < 0 then
      match ThrowOnErrorCode(reply.rc, StatusText + ch.adapterID + "!")
      case Fail(e) => Answer(Failure(e), d')
      case Pass => assert false; Answer(Success(StatusOf(reply.rc)), d')
    else
      Answer(Success(StatusOf(reply.rc)), d')
  }

  /** getVersionInfo: on ERROR_CANUSB_OK, the text the driver left in the buffer. */
  function GetVersionInfo(ch: Channel, d: Device): (r: Answer<string>)
    ensures var reply := d.script(d.log, VersionInfo(ch.handle));
      && r.device.log == d.log + [VersionInfo(ch.handle)] && r.device.script == d.script
      && (r.result.Success? <==> reply.rc == ErrorOk)
      && (r.result.Success? ==> r.result.value == reply.text)
      && (r.result.Failure? ==> r.result.error.kind == KindOf(reply.rc))
  {
    var (reply, d') := Call(d, VersionInfo(ch.handle));
    match ThrowOnErrorCode(reply.rc, VersionText + ch.adapterID + "!")
    case Pass => Answer(Success(reply.text), d')
    case Fail(e) => Answer(Failure(e), d')
  }

  /** read: a positive answer gives the frame the driver filled in, zero
      gives no frame (Java's null), a negative answer is raised. */
  function Read(ch: Channel, d: Device): (r: Answer<Option<CanMsg>>)
    ensures var reply := d.script(d.log, DeviceCall.Read(ch.handle));
      && r.device.log == d.log + [DeviceCall.Read(ch.handle)] && r.device.script == d.script
      && (r.result.Success? <==> reply.rc >= 0)
      && (r.result.Success? ==> (r.result.value.Some? <==> reply.rc > 0))
      && (r.result.Success? && r.result.value.Some? ==> r.result.value.value == reply.frame)
      && (r.result.Failure? ==> r.result.error.kind == KindOf(reply.rc))
  {
    var (reply, d') := Call(d, DeviceCall.Read(ch.handle));
    if reply.rc > 0 then Answer(Success(Some(reply.frame)), d')
    else if reply.rc < 0 then
      match ThrowOnErrorCode(reply.rc, ReadText + ch.adapterID + "!")
      case Fail(e) => Answer(Failure(e), d')
      case Pass => assert false; Answer(Success(None), d')
    else Answer(Success(None), d')
  }

  /** toString of a callback argument, "null" for none. */
  function CallbackText(cb: Option<Callback>): string {
    if cb.Some? then cb.value.name else "null"
  }

  /** setReceiveCallBack: registers `cb` (or clears the registration for
      None). The channel records the new callback only after the driver
      answered ERROR_CANUSB_OK; on failure it keeps the previous one. */
  function SetReceiveCallBack(ch: Channel, cb: Option<Callback>, d: Device): (r: Effect)
    ensures var rc := d.script(d.log, DeviceCall.SetReceiveCallBack(ch.handle, cb.Some?)).rc;
      && r.device.log == d.log + [DeviceCall.SetReceiveCallBack(ch.handle, cb.Some?)] && r.device.script == d.script
      && (r.outcome.Pass? <==> rc == ErrorOk)
      && (r.outcome.Pass? ==> r.channel == ch.(callback := cb))
      && (r.outcome.Fail? ==> r.channel == ch && r.outcome.error.kind == KindOf(rc))
  {
    var (reply, d') := Call(d, DeviceCall.SetReceiveCallBack(ch.handle, cb.Some?));
    match ThrowOnErrorCode(reply.rc, CallbackSetText + CallbackText(cb)
                                     + OnAdapterText + ch.adapterID + "!")
    case Pass => Effect(Pass, ch.(callback := cb), d')
    case Fail(e) => Effect(Fail(e), ch, d')
  }

  /** isReceiveCallBackSet. */
  predicate IsReceiveCallBackSet(ch: Channel) {
    ch.callback.Some?
  }

  /** The frame write hands to the driver: a native frame as it is, a foreign
      frame rebuilt by the validating constructor, with a one-byte dummy
      buffer in place of the data when its length is zero. */
  function FrameToWrite(frame: Frame): (r: Result<CanMsg, ArgumentError>)
    ensures frame.Native? ==> r == Success(frame.msg)
    ensures frame.Foreign? ==>
      (r.Failure? <==> (frame.reserver & 0xC0 != 0 || (frame.length != 0 && |frame.data| > DataBytes)))
    ensures frame.Foreign? && r.Success? ==>
      && IsExtendedID(r.value) == frame.extendedID && IsRemoteFrame(r.value) == frame.remoteFrame
      && Reserver(r.value) == frame.reserver && r.value.id == frame.id
      && r.value.timestamp == frame.timestamp && r.value.length == frame.length
      && r.value.data == (if frame.length == 0 then DummyByte else frame.data)
  {
    match frame
    case Native(m) => Success(m)
    case Foreign(id, ts, ext, rtr, res, len, data) =>
      NewMessage(id, ts, ext, rtr, res, len, if len == 0 then DummyByte else data)
  }

  /** write: an invalid foreign frame is refused before the driver is
      called; otherwise one write call, successful exactly on ERROR_CANUSB_OK. */
  function Write(ch: Channel, frame: Frame, d: Device): (r: (Outcome<WriteError>, Device))
    ensures r.1.script == d.script
    ensures FrameToWrite(frame).Failure? ==>
      r.1.log == d.log && r.0 == Fail(IllegalArgument(FrameToWrite(frame).error))
    ensures FrameToWrite(frame).Success? ==>
      var c := DeviceCall.Write(ch.handle, FrameToWrite(frame).value);
      && r.1.log == d.log + [c]
      && (r.0.Pass? <==> d.script(d.log, c).rc == ErrorOk)
      && (r.0.Fail? ==> r.0.error.DriverError? && r.0.error.error.kind == KindOf(d.script(d.log, c).rc))
  {
    match FrameToWrite(frame)
    case Failure(a) => (Fail(IllegalArgument(a)), d)
    case Success(m) =>
      var (reply, d') := Call(d, DeviceCall.Write(ch.handle, m));
      match ThrowOnErrorCode(reply.rc, WriteText + ch.adapterID + "!")
      case Pass => (Pass, d')
      case Fail(e) => (Fail(DriverError(e)), d')
  }

  // ---------------------------------------------------------------------
  // Properties across calls

  /** After a successful setReceiveCallBack, the channel's view of the
      callback agrees with what the driver holds for the handle. */
  lemma CallbackViewAgrees(ch: Channel, cb: Option<Callback>, d: Device)
    requires SetReceiveCallBack(ch, cb, d).outcome.Pass?
    ensures var r := SetReceiveCallBack(ch, cb, d);
      IsReceiveCallBackSet(r.channel) == CallbackRegistered(r.device, r.device.log, ch.handle)
  {
    var r := SetReceiveCallBack(ch, cb, d);
    var h := r.device.log;
    assert h[..|h| - 1] == d.log;
  }

  /** With a driver that accepts every registration, set then clear gives
      false, then true, then false. */
  lemma SetThenClear(ch: Channel, cb: Callback, d: Device)
    requires !IsReceiveCallBackSet(ch)
    requires forall h, handle, registers :: d.script(h, DeviceCall.SetReceiveCallBack(handle, registers)).rc == ErrorOk
    ensures var r1 := SetReceiveCallBack(ch, Some(cb), d);
      var r2 := SetReceiveCallBack(r1.channel, None, r1.device);
      IsReceiveCallBackSet(r1.channel) && !IsReceiveCallBackSet(r2.channel)
  {
    var r1 := SetReceiveCallBack(ch, Some(cb), d);
    assert r1.outcome.Pass?;
    var r2 := SetReceiveCallBack(r1.channel, None, r1.device);
    assert r2.outcome.Pass?;
  }

  /** A refused registration leaves the channel as it was. */
  lemma RefusedRegistrationKept(ch: Channel, cb: Option<Callback>, d: Device)
    requires d.script(d.log, DeviceCall.SetReceiveCallBack(ch.handle, cb.Some?)).rc != ErrorOk
    ensures SetReceiveCallBack(ch, cb, d).channel == ch
    ensures SetReceiveCallBack(ch, cb, d).outcome.Fail?
  {
  }

  /** With a driver that refuses reads while a callback is registered,
      reading after registering a callback raises the general error. */
  lemma ReadWhileCallback(ch: Channel, cb: Callback, d: Device)
    requires RefusesReadWhileCallback(d)
    requires SetReceiveCallBack(ch, Some(cb), d).outcome.Pass?
    ensures var r := SetReceiveCallBack(ch, Some(cb), d);
      var rd := Read(r.channel, r.device);
      rd.result.Failure? && rd.result.error.kind == General
  {
    var r := SetReceiveCallBack(ch, Some(cb), d);
    CallbackViewAgrees(ch, Some(cb), d);
    assert CallbackRegistered(d, r.device.log, ch.handle);
    assert r.device.script(r.device.log, DeviceCall.Read(ch.handle)).rc == ErrorGeneral;
  }

  /** The channel keeps no open flag: after a successful close, a call on it
      is answered by the driver alone. A driver answering ERROR_CANUSB_NOT_OPEN
      gives the not-open error; a driver answering a status word gives that
      status. */
  lemma UseAfterClose(ch: Channel, d: Device)
    requires Close(ch, d).result.Success?
    ensures var d1 := Close(ch, d).device;
      var rc := d1.script(d1.log, DeviceCall.GetStatus(ch.handle)).rc;
      && (rc == ErrorNotOpen ==> GetStatus(ch, d1).result.Failure? && GetStatus(ch, d1).result.error.kind == NotOpen)
      && (rc >= 0 ==> GetStatus(ch, d1).result == Success(StatusOf(rc)))
  {
  }

  /** A handle of zero is the general error; -9 is no-device. */
  lemma OpenFailures(d: Device, adapterID: string, bitrate: Bitrate, code: AcceptanceCode,
                     mask: AcceptanceMask, flags: seq<Flag>)
    ensures var rc := d.script(d.log, OpenCall(adapterID, bitrate, code, mask, flags)).rc;
      var r := OpenChannel(d, adapterID, bitrate, code, mask, flags);
      && (rc == 0 ==> r.result.Failure? && r.result.error.kind == General)
      && (rc == ErrorNoDevice ==> r.result.Failure? && r.result.error.kind == NoDevice)
  {
  }

  /** An empty queue (ERROR_CANUSB_NO_MESSAGE) is the no-message error, not
      the null of a zero answer. */
  lemma ReadEmptyQueue(ch: Channel, d: Device)
    requires d.script(d.log, DeviceCall.Read(ch.handle)).rc == ErrorNoMessage
    ensures Read(ch, d).result.Failure? && Read(ch, d).result.error.kind == NoMessage
  {
  }
}
