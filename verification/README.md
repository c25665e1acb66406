# CANUSBJNA in Dafny

A model of the core of CANUSBJNA, a Java binding (through JNA) to the
`canusbdrv` driver of the Lawicel CANUSB adapter, with proofs about it.

What is modelled:

- the constants of `NativeAccess`: status bits, acceptance words, frame
  flags, return codes, open flags, and the 18 bytes of fields of the
  `CANMsg` structure;
- `NativeMessage`: the validating constructor, the getters that unpack the
  flags byte, and the fixed-width hex/binary formatting helpers;
- `Status`: the flag queries and `toString`;
- `CANUSBException.throwOnErrorCode`: the map from return codes to
  exception classes, and the exception message;
- `Flag`, `Bitrate`, `AcceptanceCode`, `AcceptanceMask`;
- `Channel`: open, close, getStatus, getVersionInfo, read,
  setReceiveCallBack, isReceiveCallBackSet, write;
- `Adapter`: toString and openChannel;
- `AdapterIterator`: the constructor, hasNext, next, next(serialNumber),
  remove;
- the option loop of `Logger.main` and its adapter-selection branch.

How the model is built:

- **The driver is an oracle.** `NativeAccess.Device` pairs a `script` with
  a `log` of the calls made so far. `script` answers a call given the
  calls made before it. Every driver call appends to the log, so contracts
  can state which calls an operation makes, in which order, and what it
  does with each answer.
- **Driver promises are predicates on the script.** A promise from the
  driver's documentation becomes a predicate:
  - `EnumeratesCyclically`: adapters are listed in order, for ever;
  - `RefusesReadWhileCallback`: a read fails while a callback is
    registered;
  - `ProbesCleanly`: opening, reading the version and closing all succeed.

  Lemmas assume these predicates where the property depends on them.
- **Exceptions and null.** Java exceptions are `Result`/`Outcome` values.
  Java `null` is `Option`.
- **Java integers.** A Java `int` is `JavaLang.Int32`. Its bit pattern is
  `Bits32`. A Java `byte` is `bv8`, read as signed by `SignedByte`.
- **Module layout.** One module per Java class:
  - `java_lang.dfy` holds the parts of `java.lang` the code relies on:
    `Integer.toHexString`, `toBinaryString`, `toString`, and ASCII
    upper-casing;
  - `wrappers.dfy` holds `Option`, `Result` and `Outcome`.

The source calls ERROR_CANUSB_OK the one success value. The model follows
the code rather than the driver documentation:

- `close`, `getVersionInfo`, `setReceiveCallBack` and `write` succeed only
  on 1. The driver documents ">0 on success" for these calls.
- The channel keeps no open/closed flag. After `close`, later calls relay
  whatever the driver answers (`Channels.UseAfterClose`). They are not
  refused with a not-open error of the library's own.
- `next` is modelled once, as `AdapterIterators.NextWith`, with the test
  it applies to the answer of `canusb_getNextAdapter` as a parameter
  (`NextCheck`):
  - `AsWritten` is the code: throwOnErrorCode, which passes 1 only;
  - `Intended` is the driver's documented ">0 on success".

  `next(serialNumber)`, the walks and the adapter selection of
  `Logger.main` take the same parameter; `main` as written is the
  `AsWritten` case. The walk lemmas hold for either test, on a driver
  whose answers pass it (`NextAccepted`). The Findings section shows where
  the two tests part.

## Model

| member | source | states |
|---|---|---|
| JavaLang.DecimalRoundTrip | CANUSBJNA/src/de/hardwarespielerei/can/canusb/CANUSBException.java:49-52 | the decimal text of any int that the exception message appends parses back to that int |
| JavaLang.ToUpperAscii | CANUSBJNA/src/de/hardwarespielerei/can/canusb/util/Logger.java:441 | upper-casing keeps the length and maps each character on its own, a-z to A-Z |
| NativeAccess.StatusBitsShape | CANUSBJNA/src/de/hardwarespielerei/can/canusb/jna/NativeAccess.java:47-71 | the seven status constants are single, pairwise distinct bits; their union is 0xEF and bit 0x10 is unused |
| NativeAccess.AcceptAllPatterns | CANUSBJNA/src/de/hardwarespielerei/can/canusb/jna/NativeAccess.java:78-83 | the accept-all code is all zero bits and the accept-all mask all one bits |
| NativeAccess.FlagsBytePartition | CANUSBJNA/src/de/hardwarespielerei/can/canusb/jna/NativeAccess.java:90-94 | the extended flag, the remote flag and the six reserver bits are disjoint and cover the flags byte |
| NativeAccess.ReturnCodesShape | CANUSBJNA/src/de/hardwarespielerei/can/canusb/jna/NativeAccess.java:101-156 | the failure codes are exactly -1 down to -11, all distinct, and OK (1) is not among them |
| NativeAccess.OpenFlagsShape | CANUSBJNA/src/de/hardwarespielerei/can/canusb/jna/NativeAccess.java:163-184 | the five open flags are the powers of two 0x01 to 0x10, in declaration order |
| NativeAccess.StructRoundTrip | CANUSBJNA/src/de/hardwarespielerei/can/canusb/jna/NativeAccess.java:191-223 | laying out a CANMsg in field order and reading the 18 bytes back gives the same structure |
| NativeAccess.StructBytesRoundTrip | CANUSBJNA/src/de/hardwarespielerei/can/canusb/jna/NativeAccess.java:191-223 | every 18-byte image is the layout of the structure read from it, so the layout is a bijection |
| NativeAccess.Int32BytesRoundTrip | CANUSBJNA/src/de/hardwarespielerei/can/canusb/jna/NativeAccess.java:196-201 | an int field written as four little-endian bytes reads back as the same int, negative values included |
| NativeAccess.BytesInt32RoundTrip | CANUSBJNA/src/de/hardwarespielerei/can/canusb/jna/NativeAccess.java:196-201 | any four bytes read as an int and written back are the same four bytes |
| Messages.NewMessage | CANUSBJNA/src/de/hardwarespielerei/can/canusb/NativeMessage.java:62-82 | the frame is built exactly when the reserver fits in six bits and the data has at most 8 bytes; the reserver error is reported first; the getters read back every argument |
| Messages.ReserverCheckSigned | CANUSBJNA/src/de/hardwarespielerei/can/canusb/NativeMessage.java:65-68 | the reserver check passes exactly the signed bytes 0 to 63, so every negative byte is refused |
| Messages.FlagsByteDecode | CANUSBJNA/src/de/hardwarespielerei/can/canusb/NativeMessage.java:113-132 | isExtendedID, isRemoteFrame and getReserver read back the two flags and the reserver packed into the flags byte |
| Messages.FlagsByteComplete | CANUSBJNA/src/de/hardwarespielerei/can/canusb/NativeMessage.java:113-132 | every flags byte is the packing of what the three getters read from it |
| Messages.FlagsByte | CANUSBJNA/src/de/hardwarespielerei/can/canusb/NativeMessage.java:77-79 | the flags byte the constructor packs; FlagsByteDecode shows the getters read its parts back and FlagsByteComplete that every byte is such a packing |
| Messages.IsExtendedID | CANUSBJNA/src/de/hardwarespielerei/can/canusb/NativeMessage.java:113-116 | bit 0x80 of the flags byte; FlagsByteDecode and FlagsOwnBit show it reads that bit alone |
| Messages.IsRemoteFrame | CANUSBJNA/src/de/hardwarespielerei/can/canusb/NativeMessage.java:121-124 | bit 0x40 of the flags byte; FlagsByteDecode and FlagsOwnBit show it reads that bit alone |
| Messages.FlagsOwnBit | CANUSBJNA/src/de/hardwarespielerei/can/canusb/NativeMessage.java:113-124 | each flag getter depends on its own bit only: flipping it toggles the answer, flipping other bits does not change it |
| Messages.Reserver | CANUSBJNA/src/de/hardwarespielerei/can/canusb/NativeMessage.java:129-132 | the reserver read from any flags byte is at most 63 |
| Messages.PaddingIgnored | CANUSBJNA/src/de/hardwarespielerei/can/canusb/NativeMessage.java:143-149 | data bytes beyond the frame size do not change the payload |
| Messages.FitToWidth | CANUSBJNA/src/de/hardwarespielerei/can/canusb/NativeMessage.java:179-193 | the result has exactly `len` characters: the last `len` digits, or the digits left-padded with '0' |
| Messages.FittedValue | CANUSBJNA/src/de/hardwarespielerei/can/canusb/NativeMessage.java:179-193 | a fitted digit string of v is a digit string whose value is v modulo base^len |
| Messages.ToHexString | CANUSBJNA/src/de/hardwarespielerei/can/canusb/NativeMessage.java:179-193 | `len` hex digits whose value is the int's unsigned 32-bit pattern modulo 16^len |
| Messages.ToBinaryString | CANUSBJNA/src/de/hardwarespielerei/can/canusb/NativeMessage.java:205-219 | `len` binary digits whose value is the int's unsigned 32-bit pattern modulo 2^len |
| Messages.ToHexStringInt | CANUSBJNA/src/de/hardwarespielerei/can/canusb/NativeMessage.java:195-198 | eight hex digits from which the int's 32-bit pattern is read back exactly |
| Messages.ToHexStringByte | CANUSBJNA/src/de/hardwarespielerei/can/canusb/NativeMessage.java:200-203 | two hex digits from which the byte is read back exactly, although it is sign-extended first |
| Messages.ToBinaryStringInt | CANUSBJNA/src/de/hardwarespielerei/can/canusb/NativeMessage.java:221-224 | 32 binary digits from which the int's 32-bit pattern is read back exactly |
| Messages.ToBinaryStringByte | CANUSBJNA/src/de/hardwarespielerei/can/canusb/NativeMessage.java:226-229 | eight binary digits from which the byte is read back exactly, although it is sign-extended first |
| StatusFlags.StatusOf | CANUSBJNA/src/de/hardwarespielerei/can/canusb/Status.java:45-48 | any int is accepted; the status word is zero exactly when the int is |
| StatusFlags.KnownBitsValue | CANUSBJNA/src/de/hardwarespielerei/can/canusb/Status.java:128-133 | the bits toString treats as known are 0xEF |
| StatusFlags.OkRaisesNothing | CANUSBJNA/src/de/hardwarespielerei/can/canusb/Status.java:53-112 | an OK status raises none of the seven flags and has no unknown bit |
| StatusFlags.UnusedBitIsUnknown | CANUSBJNA/src/de/hardwarespielerei/can/canusb/Status.java:128-134 | toString reports unknown errors exactly when bit 0x10 or a bit above the low byte is set |
| StatusFlags.FlagsDetermineStatus | CANUSBJNA/src/de/hardwarespielerei/can/canusb/Status.java:61-134 | two statuses that agree on the seven flags and on the unknown bits are equal |
| StatusFlags.KnownBitsTable | CANUSBJNA/src/de/hardwarespielerei/can/canusb/jna/NativeAccess.java:47-71 | the single-bit masks the flag queries use are exactly the seven status constants |
| StatusFlags.FlagToggles | CANUSBJNA/src/de/hardwarespielerei/can/canusb/Status.java:61-112 | flipping a known bit toggles the query for that bit |
| StatusFlags.FlagsIndependent | CANUSBJNA/src/de/hardwarespielerei/can/canusb/Status.java:61-112 | flipping one known bit leaves every other flag query unchanged |
| StatusFlags.Sample0x81 | CANUSBJNA/src/de/hardwarespielerei/can/canusb/Status.java:53-112 | status 0x81 is receive-FIFO-full plus bus error and nothing else |
| StatusFlags.ToStringRoundTrip | CANUSBJNA/src/de/hardwarespielerei/can/canusb/Status.java:115-136 | the status word is read back from its text through the hex digits after the final "0x" |
| StatusFlags.ReadBack | CANUSBJNA/src/de/hardwarespielerei/can/canusb/Status.java:134-135 | whatever items precede them, "0x" and the unsigned hex digits of a word read back as that word |
| StatusFlags.OkPrefix | CANUSBJNA/src/de/hardwarespielerei/can/canusb/Status.java:117-135 | the text starts with 'O' exactly when the status is OK |
| StatusFlags.OkText | CANUSBJNA/src/de/hardwarespielerei/can/canusb/Status.java:117 | the text opens with "OK, " exactly when the status is OK |
| StatusFlags.UnknownText | CANUSBJNA/src/de/hardwarespielerei/can/canusb/Status.java:128-134 | "unknown error(s), " occurs in the text exactly when a bit outside the seven known ones is set |
| StatusFlags.ToString | CANUSBJNA/src/de/hardwarespielerei/can/canusb/Status.java:115-136 | the text of a status: OkText gives its "OK, " prefix, UnknownText its unknown-bits item, ToStringRoundTrip the word read back from its hex digits |
| StatusFlags.IsOK | CANUSBJNA/src/de/hardwarespielerei/can/canusb/Status.java:53-56 | no bit is set; OkRaisesNothing and OkText tie it to the flags and to the text |
| StatusFlags.IsReceiveFifoFull | CANUSBJNA/src/de/hardwarespielerei/can/canusb/Status.java:61-64 | the query for bit 0x01; FlagToggles and FlagsIndependent show it reads that bit alone |
| StatusFlags.IsTransmitFifoFull | CANUSBJNA/src/de/hardwarespielerei/can/canusb/Status.java:69-72 | the query for bit 0x02; FlagToggles and FlagsIndependent show it reads that bit alone |
| StatusFlags.IsErrorWarning | CANUSBJNA/src/de/hardwarespielerei/can/canusb/Status.java:77-80 | the query for bit 0x04; FlagToggles and FlagsIndependent show it reads that bit alone |
| StatusFlags.IsDataOverrun | CANUSBJNA/src/de/hardwarespielerei/can/canusb/Status.java:85-88 | the query for bit 0x08; FlagToggles and FlagsIndependent show it reads that bit alone |
| StatusFlags.IsErrorPassive | CANUSBJNA/src/de/hardwarespielerei/can/canusb/Status.java:93-96 | the query for bit 0x20; FlagToggles and FlagsIndependent show it reads that bit alone |
| StatusFlags.IsArbitrationLost | CANUSBJNA/src/de/hardwarespielerei/can/canusb/Status.java:101-104 | the query for bit 0x40; FlagToggles and FlagsIndependent show it reads that bit alone |
| StatusFlags.IsBusError | CANUSBJNA/src/de/hardwarespielerei/can/canusb/Status.java:109-112 | the query for bit 0x80; FlagToggles and FlagsIndependent show it reads that bit alone |
| CanusbErrors.ExceptionMessage | CANUSBJNA/src/de/hardwarespielerei/can/canusb/CANUSBException.java:49-52 | the message is the detail text, then " RC = ", then at least one more character |
| CanusbErrors.Message | CANUSBJNA/src/de/hardwarespielerei/can/canusb/CANUSBException.java:49-52 | the message of an exception starts with its detail text, and its return code is parsed back from the text after " RC = " |
| CanusbErrors.KindOf | CANUSBJNA/src/de/hardwarespielerei/can/canusb/CANUSBException.java:70-99 | a code outside -11..-2 gives the general class; any other class is given only by the code it stands for |
| CanusbErrors.ThrowOnErrorCode | CANUSBJNA/src/de/hardwarespielerei/can/canusb/CANUSBException.java:67-100 | passes exactly on ERROR_CANUSB_OK; otherwise raises the class for the code, keeping the code and the detail text |
| CanusbErrors.KindOfCode | CANUSBJNA/src/de/hardwarespielerei/can/canusb/CANUSBException.java:70-99 | each exception class is raised by the failure code it stands for |
| CanusbErrors.CodeOfKind | CANUSBJNA/src/de/hardwarespielerei/can/canusb/CANUSBException.java:70-99 | each listed failure code is the code of the class it raises |
| CanusbErrors.GeneralExactly | CANUSBJNA/src/de/hardwarespielerei/can/canusb/CANUSBException.java:70-99 | a failing code raises the general class exactly when it is -1 or outside -11..-1 |
| CanusbErrors.KindsDistinct | CANUSBJNA/src/de/hardwarespielerei/can/canusb/CANUSBException.java:70-99 | distinct listed failure codes raise distinct classes |
| CanusbErrors.ReturnCodeInMessage | CANUSBJNA/src/de/hardwarespielerei/can/canusb/CANUSBException.java:49-52 | the message starts with the detail text, and the raw code is parsed back from the text after " RC = " |
| CanusbErrors.SampleCodes | CANUSBJNA/src/de/hardwarespielerei/can/canusb/CANUSBException.java:70-99 | 1 passes; -7 is no-message; -10 is timeout; -999 is general and keeps its code |
| Flags.Description | CANUSBJNA/src/de/hardwarespielerei/can/canusb/Flag.java:77-91 | the constructor drops the description, so toString gives null |
| Flags.SingleDistinctBits | CANUSBJNA/src/de/hardwarespielerei/can/canusb/Flag.java:36-72 | every flag's native value is a single bit, and no two flags share one |
| Flags.NativeFlag | CANUSBJNA/src/de/hardwarespielerei/can/canusb/Flag.java:82-85 | the flag's native bit; SingleDistinctBits shows every flag has one single bit of its own |
| Flags.MaskOfMembership | CANUSBJNA/src/de/hardwarespielerei/can/canusb/Channel.java:68-72 | a flag is in a set exactly when its bit is set in the set's word |
| Flags.MaskOfInsert | CANUSBJNA/src/de/hardwarespielerei/can/canusb/Channel.java:69-72 | OR-ing one more flag into the word gives the word of the larger set |
| Flags.OptionsOfMask | CANUSBJNA/src/de/hardwarespielerei/can/canusb/Channel.java:68-72 | the set of flags is read back from its word |
| Flags.MaskOfInjective | CANUSBJNA/src/de/hardwarespielerei/can/canusb/Channel.java:68-72 | distinct sets of flags give distinct words |
| Bitrates.TokensInOrder | CANUSBJNA/src/de/hardwarespielerei/can/canusb/Bitrate.java:32-85 | the eight bitrates, in declaration order, print as "10" to "1000", the tokens the driver documents |
| Bitrates.TokenInjective | CANUSBJNA/src/de/hardwarespielerei/can/canusb/Bitrate.java:37-72 | no two bitrates share a token |
| Bitrates.Token | CANUSBJNA/src/de/hardwarespielerei/can/canusb/Bitrate.java:76-85 | the code toString returns; TokensInOrder gives its value per bitrate and TokenInjective shows no two share one |
| Acceptance.AcceptAllWords | CANUSBJNA/src/de/hardwarespielerei/can/canusb/AcceptanceCode.java:39-40 | the accept-all code wraps the word 0x00000000 and the accept-all mask the word 0xFFFFFFFF (the int -1) |
| Acceptance.WrapUnwrap | CANUSBJNA/src/de/hardwarespielerei/can/canusb/AcceptanceMask.java:51-59 | any int is accepted, and the getter gives it back |
| Adapters.ToString | CANUSBJNA/src/de/hardwarespielerei/can/canusb/Adapter.java:94-97 | the text is "CANUSB # " followed by the serial number |
| Adapters.ToStringInjective | CANUSBJNA/src/de/hardwarespielerei/can/canusb/Adapter.java:94-97 | two adapters print alike exactly when their serial numbers agree |
| Adapters.OpenChannel | CANUSBJNA/src/de/hardwarespielerei/can/canusb/Adapter.java:85-90 | opens on the adapter's id, passing bitrate token, filter and flag word to the driver unchanged |
| Channels.CombineFlagsIsMask | CANUSBJNA/src/de/hardwarespielerei/can/canusb/Channel.java:68-72 | the word the constructor ORs together is the word of the set of flags given |
| Channels.CombineFlagsSameSet | CANUSBJNA/src/de/hardwarespielerei/can/canusb/Channel.java:68-72 | two flag arrays give the same word exactly when they name the same flags; order and repetition do not matter |
| Channels.CombineFlags | CANUSBJNA/src/de/hardwarespielerei/can/canusb/Channel.java:68-72 | the OR of the flags' native bits; CombineFlagsIsMask shows it is the word of the set of flags named |
| Channels.OpenChannel | CANUSBJNA/src/de/hardwarespielerei/can/canusb/Channel.java:63-81 | one open call; a channel exactly when the handle is positive; otherwise the class for the handle, so zero is the general error |
| Channels.OpenFailures | CANUSBJNA/src/de/hardwarespielerei/can/canusb/Channel.java:76-80 | a zero handle raises the general error; -9 raises no-device |
| Channels.Close | CANUSBJNA/src/de/hardwarespielerei/can/canusb/Channel.java:89-95 | one close call, which succeeds exactly on ERROR_CANUSB_OK; otherwise the class for the code |
| Channels.GetStatus | CANUSBJNA/src/de/hardwarespielerei/can/canusb/Channel.java:109-118 | one status call; a status exactly when the answer is non-negative (zero included); otherwise the class for the code |
| Channels.GetVersionInfo | CANUSBJNA/src/de/hardwarespielerei/can/canusb/Channel.java:127-135 | one call; on ERROR_CANUSB_OK, the text the driver returned |
| Channels.Read | CANUSBJNA/src/de/hardwarespielerei/can/canusb/Channel.java:147-162 | one read call; a positive answer gives the driver's frame, zero gives none, a negative answer the class for the code |
| Channels.ReadEmptyQueue | CANUSBJNA/src/de/hardwarespielerei/can/canusb/Channel.java:147-162 | an empty queue (-7) raises no-message rather than returning none |
| Channels.SetReceiveCallBack | CANUSBJNA/src/de/hardwarespielerei/can/canusb/Channel.java:174-188 | one registration call; the channel records the new callback exactly when the driver answers ERROR_CANUSB_OK, and keeps the old one otherwise |
| Channels.IsReceiveCallBackSet | CANUSBJNA/src/de/hardwarespielerei/can/canusb/Channel.java:221-224 | the channel holds a callback; CallbackViewAgrees and SetThenClear tie it to what the driver holds |
| Channels.RefusedRegistrationKept | CANUSBJNA/src/de/hardwarespielerei/can/canusb/Channel.java:182-187 | a refused registration fails and leaves the channel unchanged |
| Channels.CallbackViewAgrees | CANUSBJNA/src/de/hardwarespielerei/can/canusb/Channel.java:221-224 | after a successful registration, isReceiveCallBackSet agrees with what the driver holds for the handle |
| Channels.SetThenClear | CANUSBJNA/src/de/hardwarespielerei/can/canusb/Channel.java:174-224 | with an accepting driver, set then clear makes isReceiveCallBackSet true, then false |
| Channels.ReadWhileCallback | CANUSBJNA/src/de/hardwarespielerei/can/canusb/jna/NativeAccess.java:343-355 | with a driver that refuses reads while a callback is registered, a read after registering raises the general error |
| Channels.UseAfterClose | CANUSBJNA/src/de/hardwarespielerei/can/canusb/Channel.java:89-118 | after close, getStatus relays the driver: not-open when it answers -4, a status when it answers a status word |
| Channels.FrameToWrite | CANUSBJNA/src/de/hardwarespielerei/can/canusb/Channel.java:198-211 | a native frame passes unchanged; a foreign frame is rebuilt, refused on a wide reserver or over-long data, and given a one-byte dummy buffer when its length is zero |
| Channels.Write | CANUSBJNA/src/de/hardwarespielerei/can/canusb/Channel.java:198-216 | an invalid frame is refused with no driver call; otherwise one write call, which succeeds exactly on ERROR_CANUSB_OK |
| AdapterIterators.Start | CANUSBJNA/src/de/hardwarespielerei/can/canusb/AdapterIterator.java:58-67 | one getFirstAdapter call and nothing else changes in the driver; count and first id as answered, index 0; hasNext exactly when the count is positive |
| AdapterIterators.Probe | CANUSBJNA/src/de/hardwarespielerei/can/canusb/AdapterIterator.java:84-111 | a failed open makes one call and raises the wrapped open error; otherwise open, version and close are called; it succeeds exactly when version and close answer 1 and the version text has at least 13 characters, giving characters 9 to 12; a failed close wins over a failed version read; a short text raises StringIndexOutOfBounds, unwrapped |
| AdapterIterators.ProbeClean | CANUSBJNA/src/de/hardwarespielerei/can/canusb/AdapterIterator.java:84-111 | on a driver whose open, version and close succeed, the probe succeeds and makes no enumeration call |
| AdapterIterators.ProbeSerial | CANUSBJNA/src/de/hardwarespielerei/can/canusb/AdapterIterator.java:98-104 | on a cleanly probing driver, the serial number is characters 9 to 12 of the version text of the adapter just opened |
| AdapterIterators.NextWith | CANUSBJNA/src/de/hardwarespielerei/can/canusb/AdapterIterator.java:74-127 | without a next element: NoSuchElement, iterator and log unchanged; a failed probe: its error, iterator unchanged; after a good probe the index advances and, while entries remain, one getNextAdapter call: success exactly when the test passes its answer, which becomes the next id, else the listing error wrapped in IllegalState with the id left as it was; on the last entry the id is left as it was too; a result is the adapter with the probed serial number and the current id |
| AdapterIterators.RetryProbesSameAdapter | CANUSBJNA/src/de/hardwarespielerei/can/canusb/AdapterIterator.java:112-125 | after a failed getNextAdapter the index has advanced but the id has not, so a retried next opens the adapter just probed again |
| AdapterIterators.NextAsWritten | CANUSBJNA/src/de/hardwarespielerei/can/canusb/AdapterIterator.java:114-120 | next as written: after a good probe with entries left, it succeeds exactly when getNextAdapter answers 1 |
| AdapterIterators.Next | CANUSBJNA/src/de/hardwarespielerei/can/canusb/jna/NativeAccess.java:268-285 | next as the driver documents getNextAdapter: after a good probe with entries left, it succeeds exactly when the answer is positive |
| AdapterIterators.AgreeOnOk | CANUSBJNA/src/de/hardwarespielerei/can/canusb/AdapterIterator.java:114-120 | when getNextAdapter answers 1, next as written and next as intended are the same |
| AdapterIterators.AsWrittenRejectsPositiveNext | CANUSBJNA/src/de/hardwarespielerei/can/canusb/AdapterIterator.java:114-120 | a driver answering getNextAdapter with 2 makes next as written fail with a wrapped general error, while next as intended succeeds |
| AdapterIterators.AsWrittenWalkStops | CANUSBJNA/src/de/hardwarespielerei/can/canusb/AdapterIterator.java:114-125 | with two or more adapters and getNextAdapter answering 2, the walk as written yields no adapter and stops at an IllegalState error, while the walk as intended yields every id |
| AdapterIterators.HasNext | CANUSBJNA/src/de/hardwarespielerei/can/canusb/AdapterIterator.java:69-72 | another adapter remains while the index is below the count; NextWith and Collect show that next refuses once it is false and that a clean walk takes count - index steps |
| AdapterIterators.NextOnTrack | CANUSBJNA/src/de/hardwarespielerei/can/canusb/AdapterIterator.java:74-127 | on a cyclic, cleanly probing driver whose getNextAdapter answers pass the test, next yields the adapter with the expected id and stays in step with the driver |
| AdapterIterators.WalkOnTrack | CANUSBJNA/src/de/hardwarespielerei/can/canusb/AdapterIterator.java:69-127 | from any in-step position, for either test the driver passes, hasNext/next collects the remaining ids in the driver's order without error |
| AdapterIterators.FullPass | CANUSBJNA/src/de/hardwarespielerei/can/canusb/AdapterIterator.java:58-127 | for either test the driver passes, a full iteration yields one adapter per attached id, in order, with count - 1 getNextAdapter calls |
| AdapterIterators.WalkSerials | CANUSBJNA/src/de/hardwarespielerei/can/canusb/AdapterIterator.java:69-127 | from any in-step position, on a driver whose version text depends on the adapter id, the walk yields exactly the remaining adapters, each with the serial number of its version text |
| AdapterIterators.FullPassSerials | CANUSBJNA/src/de/hardwarespielerei/can/canusb/AdapterIterator.java:58-127 | a full iteration on such a driver yields exactly the attached adapters, ids and serial numbers, in the driver's order |
| AdapterIterators.Attached | CANUSBJNA/src/de/hardwarespielerei/can/canusb/AdapterIterator.java:104-111 | the reference list: one adapter per id, with the serial number at characters 9 to 12 of its version text |
| AdapterIterators.Collect | CANUSBJNA/src/de/hardwarespielerei/can/canusb/AdapterIterator.java:69-127 | a walk that ends without error has exhausted hasNext and collected count - index adapters; one that ends at an error stopped early, and the error is IllegalState or StringIndexOutOfBounds, never NoSuchElement |
| AdapterIterators.Remove | CANUSBJNA/src/de/hardwarespielerei/can/canusb/AdapterIterator.java:156-160 | remove always fails with an unsupported-operation error |
| AdapterIterators.Drain | CANUSBJNA/src/de/hardwarespielerei/can/canusb/AdapterIterator.java:137-153 | for either test, the walk to the end returns an adapter with the serial number or the one already remembered; on success or not-found the iterator is exhausted |
| AdapterIterators.NextWithSerial | CANUSBJNA/src/de/hardwarespielerei/can/canusb/AdapterIterator.java:137-153 | the loop equals the reference walk; a result carries the serial number and leaves the iterator exhausted; when the walk meets no error the result is the last adapter of the walk with that serial number, else NoSuchElement |
| AdapterIterators.LastMatchSpec | CANUSBJNA/src/de/hardwarespielerei/can/canusb/AdapterIterator.java:140-146 | nothing is found exactly when no adapter matches; what is found is followed by no other match |
| AdapterIterators.DrainIsLastMatch | CANUSBJNA/src/de/hardwarespielerei/can/canusb/AdapterIterator.java:137-153 | when the walk runs to the end, next(serialNumber) returns the last matching adapter, else NoSuchElement; when the walk stops at an error, next(serialNumber) fails with that error |
| CommandLine.ParseBitrate | CANUSBJNA/src/de/hardwarespielerei/can/canusb/util/Logger.java:401-435 | a recognised parameter is the bitrate's driver token or its long spelling |
| CommandLine.TokenRecognised | CANUSBJNA/src/de/hardwarespielerei/can/canusb/util/Logger.java:401-435 | every bitrate's driver token selects that bitrate |
| CommandLine.LongTokenRecognised | CANUSBJNA/src/de/hardwarespielerei/can/canusb/util/Logger.java:401-435 | every bitrate's long spelling ("250kbps", "1Mbps") selects that bitrate |
| CommandLine.ParseBitrateExactly | CANUSBJNA/src/de/hardwarespielerei/can/canusb/util/Logger.java:401-435 | a parameter selects a bitrate exactly when it is one of that bitrate's two spellings |
| CommandLine.UnknownBitrateIgnored | CANUSBJNA/src/de/hardwarespielerei/can/canusb/util/Logger.java:399-436 | an unlisted bitrate parameter changes nothing and prints no warning |
| CommandLine.ParseMode | CANUSBJNA/src/de/hardwarespielerei/can/canusb/util/Logger.java:441 | a mode is chosen only when the upper-cased parameter is its name |
| CommandLine.ParseModeExactly | CANUSBJNA/src/de/hardwarespielerei/can/canusb/util/Logger.java:441 | a parameter selects a mode exactly when it spells the mode's name in any mix of cases |
| CommandLine.ModeSamples | CANUSBJNA/src/de/hardwarespielerei/can/canusb/util/Logger.java:437-447 | "loop" selects LOOP, "Callback" selects CALLBACK, "fast" selects nothing |
| CommandLine.InvalidModeWarned | CANUSBJNA/src/de/hardwarespielerei/can/canusb/util/Logger.java:441-446 | an invalid mode parameter adds one warning and changes nothing else |
| CommandLine.Apply | CANUSBJNA/src/de/hardwarespielerei/can/canusb/util/Logger.java:397-450 | each option touches only its own setting, and -sn always sets the serial number to its parameter |
| CommandLine.ParseArguments | CANUSBJNA/src/de/hardwarespielerei/can/canusb/util/Logger.java:391-461 | the position-based loop computes the item-by-item reading of the arguments from the defaults |
| CommandLine.NoArguments | CANUSBJNA/src/de/hardwarespielerei/can/canusb/util/Logger.java:386-388 | no arguments give callback mode, 250 kbps, no serial number and no warnings |
| CommandLine.ParseAppend | CANUSBJNA/src/de/hardwarespielerei/can/canusb/util/Logger.java:391-461 | reading whole items and then more is reading the rest from where the first part left off |
| CommandLine.WarningsGrow | CANUSBJNA/src/de/hardwarespielerei/can/canusb/util/Logger.java:391-461 | warnings are only appended, never removed |
| CommandLine.LastBitrateWins | CANUSBJNA/src/de/hardwarespielerei/can/canusb/util/Logger.java:399-436 | the last -bitrate with a recognised parameter decides the bitrate |
| CommandLine.LastModeWins | CANUSBJNA/src/de/hardwarespielerei/can/canusb/util/Logger.java:437-447 | the last -mode with a valid parameter decides the mode |
| CommandLine.LastSerialWins | CANUSBJNA/src/de/hardwarespielerei/can/canusb/util/Logger.java:448-450 | the last -sn decides the serial number, whatever its parameter |
| CommandLine.MissingParameterEnds | CANUSBJNA/src/de/hardwarespielerei/can/canusb/util/Logger.java:455-460 | an option in last position adds a missing-parameter warning and changes no setting |
| CommandLine.Parse | CANUSBJNA/src/de/hardwarespielerei/can/canusb/util/Logger.java:391-461 | each argument adds at most one warning |
| CommandLine.NoSerialText | CANUSBJNA/src/de/hardwarespielerei/can/canusb/util/Logger.java:487-488 | the not-found message is "No ", the adapter text for the serial number, then " found!" |
| CommandLine.Chosen | CANUSBJNA/src/de/hardwarespielerei/can/canusb/util/Logger.java:473-489 | NoSuchElement becomes the not-found error with the given message; an adapter or any other error passes through |
| CommandLine.SelectAdapter | CANUSBJNA/src/de/hardwarespielerei/can/canusb/util/Logger.java:463-490 | one getFirstAdapter call, then with no serial number the first next of the fresh iterator, otherwise next(serialNumber), leaving the driver where that call leaves it; a chosen adapter carries the serial number; after a walk without error it is the last adapter of the walk with that serial number, else the not-found message; a walk error is passed on |
| CommandLine.NoAdapterAttached | CANUSBJNA/src/de/hardwarespielerei/can/canusb/util/Logger.java:470-476 | for either test, a driver that reports no adapter ends in "No CANUSB adapter found!" |
| CommandLine.FirstAdapterChosen | CANUSBJNA/src/de/hardwarespielerei/can/canusb/util/Logger.java:472 | on a well-behaved driver whose getNextAdapter answers pass the test, with no serial number, the first adapter the driver lists is chosen, with the serial number its probe read |
| CommandLine.SerialNotFoundExactly | CANUSBJNA/src/de/hardwarespielerei/can/canusb/util/Logger.java:481-489 | for either test, when the walk runs to the end, a serial number is not found exactly when no adapter of the walk carries it |
| CommandLine.AsWrittenSelectionFails | CANUSBJNA/src/de/hardwarespielerei/can/canusb/util/Logger.java:470-489 | on a driver with two or more adapters answering getNextAdapter with 2, main as written stops with the iterator's IllegalState error with or without a serial number, while the documented test finds the first adapter |

## Left out

- JNA itself is not modelled: library loading, `Native.toString`, structure
  marshalling and `NativeLong`. The handle is a Java int. The structure
  layout assumes the little-endian byte order of the Windows driver.
  JNA's default alignment pads `CANMsg` to 20 bytes. The model covers the
  18 bytes of fields at their offsets 0, 4, 8, 9 and 10; the two trailing
  padding bytes carry no data and are not modelled.
- Threads, the `StatusLogger` thread, console output, the banner and the
  `Platform.isWindows` test of `Logger.main` are left out. They are I/O.
  The logging loop after adapter selection is left out too: it runs until
  the user stops it.
- `NativeMessage.toString`, `Channel.toString` and the `Date` formatting
  of timestamps are left out. They are formatting for humans and depend
  on the clock's time zone.
- The delivery of frames to a registered receive callback is left out. It
  happens on a driver thread. The model records only which callback the
  channel and the driver hold.
- Null arguments are not modelled: a null flag array, data array, adapter
  id or callback reference. The Java code would throw
  NullPointerException. A callback to clear is `None`.
- CommandLine.ParseMode: `toUpperCase` is modelled on ASCII letters only.
  Locale-dependent and non-ASCII case mappings are not modelled.
- CanusbErrors.CanusbError keeps the constructor's arguments (class, code,
  detail text). The message Java builds from them is derived by
  `CanusbErrors.Message`. Stack traces and the exception cause chain are
  not modelled. The wrapping IllegalStateException keeps its cause.
- `CANMessage`, the `Version` class and the test classes are not part of
  this model.
- StatusFlags.ToString: the text is proved to open with "OK, " exactly for
  an OK status, to hold "unknown error(s), " exactly when an unknown bit is
  set, and to give the word back from its hex digits. That each of the
  seven flag names appears exactly when its flag is set, in declaration
  order, is not stated as a text property. It holds by the construction
  of the item list `Labels`, but a name-by-name occurrence proof is not
  made.
- AdapterIterators.WalkSerials and AdapterIterators.FullPassSerials assume
  a driver whose version text depends on the adapter id alone
  (`ReportsVersions`). For any other cleanly probing driver, WalkOnTrack
  and FullPass give the ids only, and each serial number is what its probe
  read (`Probe`).

## Findings

| source | as written | input that shows it | evidently intended | confidence | as-written member | corrected member |
|---|---|---|---|---|---|---|
| CANUSBJNA/src/de/hardwarespielerei/can/canusb/AdapterIterator.java:114-120 | the answer of canusb_getNextAdapter goes through throwOnErrorCode, which accepts only ERROR_CANUSB_OK (1) | a driver answering getNextAdapter with 2 while two or more adapters are attached; the documentation of the call allows any positive answer | any positive answer is success, so the iteration reaches every attached adapter; next still accepts only 1 from canusb_VersionInfo and canusb_Close, whose documentation also allows any positive answer, so the corrected walk reaches every adapter only on drivers that answer exactly 1 to those calls (`ProbesCleanly`) | medium; not executed (whether the real driver ever answers a value other than 1 is unknown) | AdapterIterators.NextAsWritten, shown by AdapterIterators.AsWrittenRejectsPositiveNext, AdapterIterators.AsWrittenWalkStops and CommandLine.AsWrittenSelectionFails | AdapterIterators.Next, proved by AdapterIterators.FullPass |
