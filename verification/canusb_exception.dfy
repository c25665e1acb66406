/** CANUSBException and its subclasses: the single place where a driver
    return code is turned into an error. */
module CanusbErrors {
  import opened JavaLang
  import opened Wrappers
  import opened NativeAccess

  /** The exception class thrown; General is CANUSBException itself. */
  datatype ErrorKind =
    | General
    | OpenSubsystem
    | CommandSubsystem
    | NotOpen
    | TransmitFifoFull
    | InvalidParam
    | NoMessage
    | MemoryError
    | NoDevice
    | Timeout
    | InvalidHardware

  /** A thrown CANUSBException: its class and the two constructor arguments,
      the return code and the detail text its message is built from. */
  datatype CanusbError = CanusbError(kind: ErrorKind, returnCode: int, detail: string)

  /** The exception class for a failing return code. */
  function KindOf(rc: int): (k: ErrorKind)
    ensures k == General <==> !(ErrorInvalidHardware <= rc <= ErrorOpenSubsystem)
    ensures k != General ==> CodeOf(k) == rc
  {
    if rc == ErrorOpenSubsystem then OpenSubsystem
    else if rc == ErrorCommandSubsystem then CommandSubsystem
    else if rc == ErrorNotOpen then NotOpen
    else if rc == ErrorTxFifoFull then TransmitFifoFull
    else if rc == ErrorInvalidParam then InvalidParam
    else if rc == ErrorNoMessage then NoMessage
    else if rc == ErrorMemoryError then MemoryError
    else if rc == ErrorNoDevice then NoDevice
    else if rc == ErrorTimeout then Timeout
    else if rc == ErrorInvalidHardware then InvalidHardware
    else General
  }

  /** The return code a kind stands for (General stands for ERROR_CANUSB_GENERAL). */
  function CodeOf(k: ErrorKind): int {
    match k
    case General => ErrorGeneral
    case OpenSubsystem => ErrorOpenSubsystem
    case CommandSubsystem => ErrorCommandSubsystem
    case NotOpen => ErrorNotOpen
    case TransmitFifoFull => ErrorTxFifoFull
    case InvalidParam => ErrorInvalidParam
    case NoMessage => ErrorNoMessage
    case MemoryError => ErrorMemoryError
    case NoDevice => ErrorNoDevice
    case Timeout => ErrorTimeout
    case InvalidHardware => ErrorInvalidHardware
  }

  /** The detail message of a CANUSBException. */
  function ExceptionMessage(message: string, rc: int): (m: string)
    ensures |m| > |message| + 6
    ensures m[..|message|] == message
    ensures m[|message|..|message| + 6] == " RC = "
  {
    message + " RC = " + DecimalString(rc)
  }

  /** getMessage of a CANUSBException. */
  function Message(e: CanusbError): (m: string)
    ensures |m| > |e.detail| + 6 && m[..|e.detail|] == e.detail
    ensures ParseDecimal(m[|e.detail| + 6..]) == e.returnCode
  {
    var m := ExceptionMessage(e.detail, e.returnCode);
    assert m[|e.detail| + 6..] == DecimalString(e.returnCode);
    DecimalRoundTrip(e.returnCode);
    m
  }

  /** throwOnErrorCode: returns on ERROR_CANUSB_OK, throws otherwise. */
  function ThrowOnErrorCode(rc: int, message: string): (o: Outcome<CanusbError>)
    ensures o.Pass? <==> rc == ErrorOk
    ensures o.Fail? ==> o.error.kind == KindOf(rc) && o.error.returnCode == rc && o.error.detail == message
  {
    if rc == ErrorOk then Pass else Fail(CanusbError(KindOf(rc), rc, message))
  }

  /** Each kind is raised by exactly the code it stands for: KindOf undoes CodeOf. */
  lemma KindOfCode(k: ErrorKind)
    ensures KindOf(CodeOf(k)) == k
    ensures CodeOf(k) in FailureCodes
  {
  }

  /** Every listed failure code maps to its own kind, so CodeOf undoes KindOf on them. */
  lemma CodeOfKind(rc: int)
    requires rc in FailureCodes
    ensures CodeOf(KindOf(rc)) == rc
  {
  }

  /** The general kind is raised by -1 and by every code outside -11..-1
      (0 and positives other than 1 included); -2..-11 each raise their own. */
  lemma GeneralExactly(rc: int)
    requires rc != ErrorOk
    ensures KindOf(rc) == General <==> rc == ErrorGeneral || rc < ErrorInvalidHardware || rc > ErrorGeneral
  {
  }

  /** The mapping is total and single-valued: every code passes or raises
      one kind, and distinct listed codes raise distinct kinds. */
  lemma KindsDistinct(rc1: int, rc2: int)
    requires rc1 in FailureCodes && rc2 in FailureCodes && rc1 != rc2
    ensures KindOf(rc1) != KindOf(rc2)
  {
    CodeOfKind(rc1);
    CodeOfKind(rc2);
  }

  /** The raw return code can be read back from the exception message. */
  lemma ReturnCodeInMessage(message: string, rc: int)
    requires rc != ErrorOk
    ensures var e := ThrowOnErrorCode(rc, message).error;
      Message(e)[..|message|] == message && ParseDecimal(Message(e)[|message| + 6..]) == rc
  {
    var m := ExceptionMessage(message, rc);
    assert m[|message| + 6..] == DecimalString(rc);
    DecimalRoundTrip(rc);
  }

  /** The cases of the design: -7 is NoMessage, -10 is Timeout, an unknown
      code such as -999 is general and keeps its value. */
  lemma SampleCodes(message: string)
    ensures ThrowOnErrorCode(ErrorOk, message).Pass?
    ensures ThrowOnErrorCode(-7, message).error.kind == NoMessage
    ensures ThrowOnErrorCode(-10, message).error.kind == Timeout
    ensures ThrowOnErrorCode(-999, message).error.kind == General
    ensures ThrowOnErrorCode(-999, message).error.returnCode == -999
  {
  }
}
