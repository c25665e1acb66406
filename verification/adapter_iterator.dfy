/** AdapterIterator: a forward-only walk over the attached adapters. The
    driver reports their number once; each step probes one adapter (open,
    read the version string, close) to learn its serial number, then asks
    the driver for the next adapter id while entries remain. */
module AdapterIterators {
  import opened JavaLang
  import opened Wrappers
  import opened NativeAccess
  import opened CanusbErrors
  import opened Bitrates
  import opened Adapters

  /** The exceptions of the iterator. A driver error inside next is wrapped
      in an IllegalStateException carrying the driver error. */
  datatype IterError =
    | NoSuchElement
    | IllegalState(cause: CanusbError)
    | StringIndexOutOfBounds
    | Unsupported(message: string)

  /** The iterator's state: the probe bitrate, the adapter count reported by
      the driver, the index of the next adapter and its id. */
  datatype Iter = Iter(bitrate: Bitrate, count: Int32, index: Int32, adapterID: string)

  /** The result of next, with the iterator and driver after it. */
  datatype Step = Step(result: Result<Adapter, IterError>, iter: Iter, device: Device)

  /** The version string holds the serial number at characters 9 to 12. */
  const SerialStart: nat := 9
  const SerialEnd: nat := 13

  /** The detail texts of the driver errors inside next. */
  const OpenFailedText: string := "Error while opening CANUSB channel!"
  const VersionFailedText: string := "Error while reading VersionInfo from CANUSB!"
  const CloseFailedText: string := "Error while closing CANUSB channel!"
  const ListFailedText: string := "Error while listing CANUSB adapters!"

  /** The constructor: asks the driver for the first adapter. The count is
      not checked, so a failing (non-positive) answer gives an empty walk. */
  function Start(d: Device, bitrate: Bitrate): (r: (Iter, Device))
    ensures var first := d.script(d.log, GetFirstAdapter);
      && r.0 == Iter(bitrate, first.rc, 0, first.text)
      && r.1.log == d.log + [GetFirstAdapter]
      && r.1.script == d.script
      && (HasNext(r.0) <==> first.rc > 0)
  {
    var (first, d') := Call(d, GetFirstAdapter);
    (Iter(bitrate, first.rc, 0, first.text), d')
  }

  /** hasNext. */
  predicate HasNext(it: Iter) {
    it.index < it.count
  }

  /** The open call of a probe: accept-all filter, timestamps on. */
  function ProbeOpen(it: Iter): DeviceCall {
    Open(it.adapterID, Token(it.bitrate), AcceptanceCodeAll, AcceptanceMaskAll, FlagTimestamp)
  }

  /** The driver error for a return code, as throwOnErrorCode would raise it. */
  function DriverError(rc: int, message: string): (e: CanusbError)
    requires rc != ErrorOk
    ensures e.kind == KindOf(rc) && e.returnCode == rc && e.detail == message
  {
    ThrowOnErrorCode(rc, message).error
  }

  /** The probe inside next: open, then (once opened) read the version and
      close in a `finally`. A failing close replaces any earlier error; a
      version string too short for the serial number raises
      StringIndexOutOfBounds, which is not a driver error and so is not
      wrapped. On success, characters 9 to 12 of the version string. */
  function Probe(it: Iter, d: Device): (r: (Result<string, IterError>, Device))
    ensures var o := d.script(d.log, ProbeOpen(it));
      && (o.rc <= 0 ==> r.1.log == d.log + [ProbeOpen(it)]
                        && r.0 == Failure(IllegalState(DriverError(o.rc, OpenFailedText))))
      && (o.rc > 0 ==> r.1.log == d.log + [ProbeOpen(it), VersionInfo(o.rc), DeviceCall.Close(o.rc)])
    ensures var o := d.script(d.log, ProbeOpen(it));
      var h := d.log + [ProbeOpen(it)];
      var v := d.script(h, VersionInfo(o.rc));
      var c := d.script(h + [VersionInfo(o.rc)], DeviceCall.Close(o.rc));
      o.rc > 0 ==>
        && (r.0.Success? <==> v.rc == ErrorOk && c.rc == ErrorOk && |v.text| >= SerialEnd)
        && (r.0.Success? ==> r.0.value == v.text[SerialStart..SerialEnd])
        && (c.rc != ErrorOk ==> r.0 == Failure(IllegalState(DriverError(c.rc, CloseFailedText))))
        && (c.rc == ErrorOk && v.rc != ErrorOk ==> r.0 == Failure(IllegalState(DriverError(v.rc, VersionFailedText))))
        && (c.rc == ErrorOk && v.rc == ErrorOk && |v.text| < SerialEnd ==> r.0 == Failure(StringIndexOutOfBounds))
    ensures r.0.Success? ==> |r.0.value| == SerialEnd - SerialStart
    ensures r.1.script == d.script
  {
    var (answer, d1) := Call(d, ProbeOpen(it));
    if answer.rc <= 0 then
      (Failure(IllegalState(DriverError(answer.rc, OpenFailedText))), d1)
    else
      var handle := answer.rc;
      var (version, d2) := Call(d1, VersionInfo(handle));
      var (closed, d3) := Call(d2, DeviceCall.Close(handle));
      var versionOutcome := ThrowOnErrorCode(version.rc, VersionFailedText);
      var closeOutcome := ThrowOnErrorCode(closed.rc, CloseFailedText);
      if closeOutcome.Fail? then (Failure(IllegalState(closeOutcome.error)), d3)
      else if versionOutcome.Fail? then (Failure(IllegalState(versionOutcome.error)), d3)
      else if |version.text| < SerialEnd then (Failure(StringIndexOutOfBounds), d3)
      else (Success(version.text[SerialStart..SerialEnd]), d3)
  }

  /** How next tests the answer of canusb_getNextAdapter: as written, through
      throwOnErrorCode, which passes ERROR_CANUSB_OK only; as the driver
      documents the call, any positive answer is success. */
  datatype NextCheck = AsWritten | Intended

  predicate Accepts(check: NextCheck, rc: int) {
    match check
    case AsWritten => rc == ErrorOk
    case Intended => rc > 0
  }

  /** next, with the test applied to the answer of getNextAdapter as a
      parameter: the probe, then the index step, then the next id while
      entries remain. A failed probe leaves the iterator as it was. A
      failing getNextAdapter comes after the index step, so that adapter is
      lost and the index stays advanced. */
  function NextWith(it: Iter, d: Device, check: NextCheck): (r: Step)
    ensures r.iter.bitrate == it.bitrate && r.iter.count == it.count
    ensures r.device.script == d.script
    ensures !HasNext(it) ==> r.result == Failure(NoSuchElement) && r.iter == it && r.device.log == d.log
    ensures HasNext(it) && Probe(it, d).0.Failure? ==>
      r.result == Failure(Probe(it, d).0.error) && r.iter == it && r.device == Probe(it, d).1
    ensures HasNext(it) && Probe(it, d).0.Success? ==>
      var d' := Probe(it, d).1;
      var following := d'.script(d'.log, GetNextAdapter);
      && r.iter.index == it.index + 1
      && (it.index + 1 < it.count ==>
            && r.device.log == d'.log + [GetNextAdapter]
            && (r.result.Success? <==> Accepts(check, following.rc))
            && (r.result.Success? ==> r.iter.adapterID == following.text)
            && (r.result.Failure? ==> r.result.error == IllegalState(DriverError(following.rc, ListFailedText)))
            && (r.result.Failure? ==> r.iter.adapterID == it.adapterID))
      && (it.index + 1 >= it.count ==> r.result.Success? && r.device == d' && r.iter.adapterID == it.adapterID)
    ensures r.result.Success? ==>
      && HasNext(it) && Probe(it, d).0.Success?
      && r.result.value == Adapter(Probe(it, d).0.value, it.adapterID)
    ensures r.iter.index == it.index ==> r.result.Failure?
  {
    if !HasNext(it) then Step(Failure(NoSuchElement), it, d)
    else
      match Probe(it, d)
      case (Failure(e), d') => Step(Failure(e), it, d')
      case (Success(serial), d') =>
        var adapter := Adapter(serial, it.adapterID);
        var it' := it.(index := it.index + 1);
        if !HasNext(it') then Step(Success(adapter), it', d')
        else
          var (following, d'') := Call(d', GetNextAdapter);
          if Accepts(check, following.rc) then Step(Success(adapter), it'.(adapterID := following.text), d'')
          else Step(Failure(IllegalState(DriverError(following.rc, ListFailedText))), it', d'')
  }

  /** next as written: an answer of getNextAdapter other than
      ERROR_CANUSB_OK fails the step. */
  function NextAsWritten(it: Iter, d: Device): (r: Step)
    ensures HasNext(it) && Probe(it, d).0.Success? && it.index + 1 < it.count ==>
      var d' := Probe(it, d).1;
      (r.result.Success? <==> d'.script(d'.log, GetNextAdapter).rc == ErrorOk)
    ensures r.device.script == d.script
  {
    NextWith(it, d, AsWritten)
  }

  /** next as the driver documents getNextAdapter: any positive answer lets
      the step succeed. */
  function Next(it: Iter, d: Device): (r: Step)
    ensures HasNext(it) && Probe(it, d).0.Success? && it.index + 1 < it.count ==>
      var d' := Probe(it, d).1;
      (r.result.Success? <==> d'.script(d'.log, GetNextAdapter).rc > 0)
    ensures r.device.script == d.script
  {
    NextWith(it, d, Intended)
  }

  /** After getNextAdapter fails, the iterator keeps the id of the adapter
      just probed while its index has moved on, so a retried next probes
      that same adapter again. */
  lemma RetryProbesSameAdapter(it: Iter, d: Device, check: NextCheck)
    requires HasNext(it) && Probe(it, d).0.Success?
    requires NextWith(it, d, check).result.Failure?
    ensures var r := NextWith(it, d, check);
      && r.iter.index == it.index + 1
      && r.iter.adapterID == it.adapterID
      && ProbeOpen(r.iter) == ProbeOpen(it)
  {
  }

  const RemoveText: string := "de.hardwarespielerei.can.canusb.AdapterIterator doesn't support remove!"

  /** remove: never supported. */
  function Remove(it: Iter): (r: Result<(), IterError>)
    ensures r.Failure? && r.error.Unsupported?
  {
    Failure(Unsupported(RemoveText))
  }

  // ---------------------------------------------------------------------
  // next(serialNumber)

  /** Reference for next(serialNumber): walk to the end, remembering the
      last adapter with the serial number; an error of next ends the walk. */
  function Drain(it: Iter, d: Device, sn: string, found: Option<Adapter>, check: NextCheck): (r: Step)
    ensures r.result.Success? ==> r.result.value.serialNumber == sn || (found.Some? && r.result.value == found.value)
    ensures r.result.Success? || r.result == Failure(NoSuchElement) ==> !HasNext(r.iter)
    ensures r.device.script == d.script
    decreases it.count - it.index
  {
    if !HasNext(it) then
      Step(if found.Some? then Success(found.value) else Failure(NoSuchElement), it, d)
    else
      var s := NextWith(it, d, check);
      if s.result.Failure? then s
      else Drain(s.iter, s.device, sn, if s.result.value.serialNumber == sn then Some(s.result.value) else found, check)
  }

  /** next(serialNumber): consumes every remaining adapter and returns the
      last one whose serial number matches. When the walk runs to the end,
      that is LastMatch of the adapters it yields (see DrainIsLastMatch). */
  method NextWithSerial(it: Iter, d: Device, sn: string, check: NextCheck) returns (r: Step)
    ensures r == Drain(it, d, sn, None, check)
    ensures r.result.Success? ==> r.result.value.serialNumber == sn && !HasNext(r.iter)
    ensures Collect(it, d, check).error.None? ==>
      var m := LastMatch(Collect(it, d, check).adapters, sn);
      r.result == if m.Some? then Success(m.value) else Failure(NoSuchElement)
  {
    var found: Option<Adapter> := None;
    var cur, dev := it, d;
    while HasNext(cur)
      invariant Drain(cur, dev, sn, found, check) == Drain(it, d, sn, None, check)
      invariant found.Some? ==> found.value.serialNumber == sn
      decreases cur.count - cur.index
    {
      var s := NextWith(cur, dev, check);
      if s.result.Failure? {
        r := s;
        DrainResult(it, d, sn, check, r);
        return;
      }
      if s.result.value.serialNumber == sn {
        found := Some(s.result.value);
      }
      cur, dev := s.iter, s.device;
    }
    if found.None? {
      r := Step(Failure(NoSuchElement), cur, dev);
    } else {
      r := Step(Success(found.value), cur, dev);
    }
    DrainResult(it, d, sn, check, r);
  }

  /** The walk's last match is what next(serialNumber) returns. */
  lemma DrainResult(it: Iter, d: Device, sn: string, check: NextCheck, r: Step)
    requires r == Drain(it, d, sn, None, check)
    ensures Collect(it, d, check).error.None? ==>
      var m := LastMatch(Collect(it, d, check).adapters, sn);
      r.result == if m.Some? then Success(m.value) else Failure(NoSuchElement)
  {
    if Collect(it, d, check).error.None? {
      DrainIsLastMatch(it, d, sn, None, check);
    }
  }

  // ---------------------------------------------------------------------
  // Walking to the end

  /** The adapters a hasNext/next loop collects, and the error that ended
      it early, if any. */
  datatype Walk = Walk(adapters: seq<Adapter>, error: Option<IterError>, iter: Iter, device: Device)

  function Collect(it: Iter, d: Device, check: NextCheck): (w: Walk)
    ensures w.error.None? ==> !HasNext(w.iter)
    ensures w.error.None? && it.index <= it.count ==> |w.adapters| == it.count - it.index
    ensures w.error.Some? ==> HasNext(it) && |w.adapters| < it.count - it.index
    ensures w.error.Some? ==> w.error.value.IllegalState? || w.error.value.StringIndexOutOfBounds?
    decreases it.count - it.index
  {
    if !HasNext(it) then Walk([], None, it, d)
    else
      var s := NextWith(it, d, check);
      if s.result.Failure? then Walk([], Some(s.result.error), s.iter, s.device)
      else
        var rest := Collect(s.iter, s.device, check);
        rest.(adapters := [s.result.value] + rest.adapters)
  }

  /** The last adapter of `s` with serial number `sn`. */
  function LastMatch(s: seq<Adapter>, sn: string): (m: Option<Adapter>)
    ensures m.Some? ==> m.value in s && m.value.serialNumber == sn
  {
    if |s| == 0 then None
    else if s[|s| - 1].serialNumber == sn then Some(s[|s| - 1])
    else LastMatch(s[..|s| - 1], sn)
  }

  /** No adapter after position `i` of `s` has serial number `sn`. */
  predicate NoMatchAfter(s: seq<Adapter>, i: nat, sn: string) {
    forall j :: i < j < |s| ==> s[j].serialNumber != sn
  }

  /** LastMatch finds nothing exactly when no adapter matches, and what it
      finds has no matching adapter after it. */
  lemma {:induction false} LastMatchSpec(s: seq<Adapter>, sn: string)
    ensures LastMatch(s, sn).None? <==> forall i :: 0 <= i < |s| ==> s[i].serialNumber != sn
    ensures LastMatch(s, sn).Some? ==>
      exists i :: 0 <= i < |s| && s[i] == LastMatch(s, sn).value && NoMatchAfter(s, i, sn)
    decreases |s|
  {
    if |s| > 0 {
      var init := s[..|s| - 1];
      LastMatchSpec(init, sn);
      if s[|s| - 1].serialNumber != sn {
        if LastMatch(init, sn).Some? {
          var i :| 0 <= i < |init| && init[i] == LastMatch(init, sn).value && NoMatchAfter(init, i, sn);
          forall j | i < j < |s|
            ensures s[j].serialNumber != sn
          {
            if j < |init| {
              assert s[j] == init[j];
            }
          }
          assert NoMatchAfter(s, i, sn);
          assert s[i] == LastMatch(s, sn).value;
        } else {
          forall i | 0 <= i < |s|
            ensures s[i].serialNumber != sn
          {
            if i < |init| {
              assert s[i] == init[i];
            }
          }
        }
      } else {
        assert NoMatchAfter(s, |s| - 1, sn);
        assert s[|s| - 1] == LastMatch(s, sn).value;
      }
    }
  }

  lemma {:induction false} LastMatchCons(a: Adapter, rest: seq<Adapter>, sn: string)
    ensures LastMatch([a] + rest, sn) ==
      if LastMatch(rest, sn).Some? then LastMatch(rest, sn)
      else if a.serialNumber == sn then Some(a) else None
    decreases |rest|
  {
    var s := [a] + rest;
    if |rest| == 0 {
      assert s == [a];
      assert s[..0] == [];
    } else {
      assert s[|s| - 1] == rest[|rest| - 1];
      assert s[..|s| - 1] == [a] + rest[..|rest| - 1];
      LastMatchCons(a, rest[..|rest| - 1], sn);
    }
  }

  /** When the walk runs to the end, next(serialNumber) returns the last
      adapter of the walk with that serial number (or the one already
      remembered), and NoSuchElement when there is none. When the walk
      stops at an error, next(serialNumber) fails with that error. */
  lemma {:induction false} DrainIsLastMatch(it: Iter, d: Device, sn: string, found: Option<Adapter>, check: NextCheck)
    ensures var w := Collect(it, d, check);
      var m := LastMatch(w.adapters, sn);
      && (w.error.None? ==>
            Drain(it, d, sn, found, check).result ==
              if m.Some? then Success(m.value)
              else if found.Some? then Success(found.value)
              else Failure(NoSuchElement))
      && (w.error.Some? ==> Drain(it, d, sn, found, check).result == Failure(w.error.value))
    decreases it.count - it.index
  {
    if HasNext(it) {
      var s := NextWith(it, d, check);
      if s.result.Success? {
        var a := s.result.value;
        var rest := Collect(s.iter, s.device, check);
        DrainIsLastMatch(s.iter, s.device, sn, if a.serialNumber == sn then Some(a) else found, check);
        LastMatchCons(a, rest.adapters, sn);
      }
    }
  }

  // ---------------------------------------------------------------------
  // A full walk on a well-behaved driver

  /** A driver whose probes all succeed: open gives a handle, the version
      string is long enough, close works. */
  ghost predicate ProbesCleanly(d: Device) {
    && (forall h, id, bitrate, code, mask, flags ::
          d.script(h, Open(id, bitrate, code, mask, flags)).rc > 0)
    && (forall h, handle ::
          d.script(h, VersionInfo(handle)).rc == ErrorOk && |d.script(h, VersionInfo(handle)).text| >= SerialEnd)
    && (forall h, handle :: d.script(h, DeviceCall.Close(handle)).rc == ErrorOk)
  }

  /** Every answer of the driver to getNextAdapter passes the check. */
  ghost predicate NextAccepted(d: Device, check: NextCheck) {
    forall h :: Accepts(check, d.script(h, GetNextAdapter).rc)
  }

  /** A driver that enumerates cyclically passes the documented check. */
  lemma IntendedAccepts(d: Device, ids: seq<string>)
    requires EnumeratesCyclically(d, ids)
    ensures NextAccepted(d, Intended)
  {
  }

  /** The version string of an opened adapter depends on its id alone,
      given here by `version`, and is long enough to hold a serial number. */
  ghost predicate ReportsVersions(d: Device, version: string -> string) {
    && (forall id :: |version(id)| >= SerialEnd)
    && (forall h: seq<DeviceCall>, handle :: |h| > 0 && h[|h| - 1].Open? ==>
          d.script(h, VersionInfo(handle)).text == version(h[|h| - 1].adapterID))
  }

  /** The serial number inside a version string. */
  function SerialOf(text: string): (sn: string)
    requires |text| >= SerialEnd
    ensures |sn| == SerialEnd - SerialStart
    ensures forall k :: 0 <= k < |sn| ==> sn[k] == text[SerialStart + k]
  {
    text[SerialStart..SerialEnd]
  }

  /** The adapters with ids `ids`, each with the serial number its version
      string holds. */
  function Attached(ids: seq<string>, version: string -> string): (r: seq<Adapter>)
    requires forall id :: |version(id)| >= SerialEnd
    ensures |r| == |ids|
    ensures forall k :: 0 <= k < |ids| ==> r[k].adapterID == ids[k] && r[k].serialNumber == SerialOf(version(ids[k]))
  {
    if |ids| == 0 then [] else [Adapter(SerialOf(version(ids[0])), ids[0])] + Attached(ids[1..], version)
  }

  lemma NextCallsOther(h: seq<DeviceCall>, c: DeviceCall)
    requires !c.GetFirstAdapter? && !c.GetNextAdapter?
    ensures NextCallsSinceFirst(h + [c]) == NextCallsSinceFirst(h)
  {
    assert (h + [c])[..|h|] == h;
  }

  lemma NextCallsNext(h: seq<DeviceCall>)
    ensures NextCallsSinceFirst(h + [GetNextAdapter]) == NextCallsSinceFirst(h) + 1
  {
    assert (h + [GetNextAdapter])[..|h|] == h;
  }

  /** Where the walk stands: the index within the `ids` the driver
      enumerates, the id of the next adapter and the getNextAdapter calls
      made since getFirstAdapter. */
  ghost predicate OnTrack(it: Iter, d: Device, ids: seq<string>) {
    && it.count == |ids|
    && 0 <= it.index <= it.count
    && (HasNext(it) ==> it.adapterID == ids[it.index] && NextCallsSinceFirst(d.log) == it.index)
  }

  /** The probe of one adapter on a cleanly probing driver succeeds and makes
      no enumeration call. */
  lemma ProbeClean(it: Iter, d: Device)
    requires ProbesCleanly(d)
    ensures Probe(it, d).0.Success?
    ensures NextCallsSinceFirst(Probe(it, d).1.log) == NextCallsSinceFirst(d.log)
  {
    var o := d.script(d.log, ProbeOpen(it));
    var h1 := d.log + [ProbeOpen(it)];
    var h2 := h1 + [VersionInfo(o.rc)];
    assert d.script(h1, VersionInfo(o.rc)).rc == ErrorOk;
    assert |d.script(h1, VersionInfo(o.rc)).text| >= SerialEnd;
    assert d.script(h2, DeviceCall.Close(o.rc)).rc == ErrorOk;
    NextCallsOther(d.log, ProbeOpen(it));
    NextCallsOther(h1, VersionInfo(o.rc));
    NextCallsOther(h2, DeviceCall.Close(o.rc));
    assert h2 + [DeviceCall.Close(o.rc)] == d.log + [ProbeOpen(it), VersionInfo(o.rc), DeviceCall.Close(o.rc)];
  }

  /** On a cleanly probing driver that reports versions, the probe reads the
      serial number from the version string of the adapter it opened. */
  lemma ProbeSerial(it: Iter, d: Device, version: string -> string)
    requires ProbesCleanly(d) && ReportsVersions(d, version)
    ensures Probe(it, d).0 == Success(SerialOf(version(it.adapterID)))
  {
    var o := d.script(d.log, ProbeOpen(it));
    var h1 := d.log + [ProbeOpen(it)];
    assert h1[|h1| - 1] == ProbeOpen(it);
    assert d.script(h1, VersionInfo(o.rc)).text == version(it.adapterID);
    ProbeClean(it, d);
  }

  /** One next on a cyclic, cleanly probing driver whose getNextAdapter
      answers pass the check yields the adapter with the expected id and
      keeps the walk on track. */
  lemma NextOnTrack(it: Iter, d: Device, ids: seq<string>, check: NextCheck)
    requires EnumeratesCyclically(d, ids) && ProbesCleanly(d) && NextAccepted(d, check)
    requires OnTrack(it, d, ids) && HasNext(it)
    ensures var s := NextWith(it, d, check);
      && s.result.Success? && s.result.value.adapterID == ids[it.index]
      && OnTrack(s.iter, s.device, ids)
      && (!HasNext(s.iter) ==> NextCallsSinceFirst(s.device.log) == it.index)
  {
    ProbeClean(it, d);
    var d3 := Probe(it, d).1;
    var it' := it.(index := it.index + 1);
    if HasNext(it') {
      var reply := d3.script(d3.log, GetNextAdapter);
      assert Accepts(check, reply.rc);
      assert reply.text == ids[(it.index + 1) % |ids|];
      SmallMod(it.index + 1, |ids|);
      NextCallsNext(d3.log);
    }
  }

  /** The adapter ids of a sequence of adapters, in order. */
  function AdapterIds(s: seq<Adapter>): (r: seq<string>)
    ensures |r| == |s|
    ensures forall k :: 0 <= k < |s| ==> r[k] == s[k].adapterID
  {
    if |s| == 0 then [] else [s[0].adapterID] + AdapterIds(s[1..])
  }

  lemma AdapterIdsCons(a: Adapter, rest: seq<Adapter>)
    ensures AdapterIds([a] + rest) == [a.adapterID] + AdapterIds(rest)
  {
    assert ([a] + rest)[1..] == rest;
  }

  /** Walking on from any on-track position collects the remaining adapters
      in the driver's order without error, and the walk calls getNextAdapter
      once between consecutive adapters. */
  lemma {:induction false} WalkOnTrack(it: Iter, d: Device, ids: seq<string>, check: NextCheck)
    requires EnumeratesCyclically(d, ids) && ProbesCleanly(d) && NextAccepted(d, check)
    requires OnTrack(it, d, ids)
    ensures var w := Collect(it, d, check);
      && w.error.None?
      && AdapterIds(w.adapters) == ids[it.index..]
      && (HasNext(it) ==> NextCallsSinceFirst(w.device.log) == it.count - 1)
    decreases it.count - it.index
  {
    if HasNext(it) {
      var s := WalkStep(it, d, ids, check);
      WalkOnTrack(s.iter, s.device, ids, check);
      var rest := Collect(s.iter, s.device, check);
      AdapterIdsCons(s.result.value, rest.adapters);
      SliceCons(ids, it.index);
      if !HasNext(s.iter) {
        assert rest.device == s.device;
      }
    } else {
      assert ids[it.index..] == [];
    }
  }

  /** With versions reported per id, the walk from any on-track position
      yields exactly the remaining attached adapters, serial numbers
      included. */
  lemma {:induction false} WalkSerials(it: Iter, d: Device, ids: seq<string>, check: NextCheck, version: string -> string)
    requires EnumeratesCyclically(d, ids) && ProbesCleanly(d) && NextAccepted(d, check)
    requires ReportsVersions(d, version)
    requires OnTrack(it, d, ids)
    ensures Collect(it, d, check).adapters == Attached(ids[it.index..], version)
    decreases it.count - it.index
  {
    if HasNext(it) {
      var s := WalkSerialStep(it, d, ids, check, version);
      WalkSerials(s.iter, s.device, ids, check, version);
      SliceCons(ids, it.index);
      AttachedCons(ids[it.index..], version);
    } else {
      assert ids[it.index..] == [];
    }
  }

  /** One step of the walk on a driver that reports versions: the adapter
      carries the serial number of its version string. */
  lemma WalkSerialStep(it: Iter, d: Device, ids: seq<string>, check: NextCheck, version: string -> string)
    returns (s: Step)
    requires EnumeratesCyclically(d, ids) && ProbesCleanly(d) && NextAccepted(d, check)
    requires ReportsVersions(d, version)
    requires OnTrack(it, d, ids) && HasNext(it)
    ensures s.result.Success? && s.result.value == Adapter(SerialOf(version(ids[it.index])), ids[it.index])
    ensures s.iter.count == it.count && s.iter.index == it.index + 1
    ensures EnumeratesCyclically(s.device, ids) && ProbesCleanly(s.device) && NextAccepted(s.device, check)
    ensures ReportsVersions(s.device, version)
    ensures OnTrack(s.iter, s.device, ids)
    ensures Collect(it, d, check) ==
      Collect(s.iter, s.device, check).(adapters := [s.result.value] + Collect(s.iter, s.device, check).adapters)
  {
    s := WalkStep(it, d, ids, check);
    ProbeSerial(it, d, version);
  }

  lemma AttachedCons(ids: seq<string>, version: string -> string)
    requires forall id :: |version(id)| >= SerialEnd
    requires |ids| > 0
    ensures Attached(ids, version) == [Adapter(SerialOf(version(ids[0])), ids[0])] + Attached(ids[1..], version)
  {
  }

  lemma SliceCons<T>(s: seq<T>, k: nat)
    requires k < |s|
    ensures s[k..] == [s[k]] + s[k + 1..]
  {
  }

  /** One step of the walk on a cyclic, cleanly probing driver, with the
      next it takes. */
  lemma WalkStep(it: Iter, d: Device, ids: seq<string>, check: NextCheck) returns (s: Step)
    requires EnumeratesCyclically(d, ids) && ProbesCleanly(d) && NextAccepted(d, check)
    requires OnTrack(it, d, ids) && HasNext(it)
    ensures s.result.Success? && s.result.value.adapterID == ids[it.index]
    ensures s.result.value.serialNumber == Probe(it, d).0.value
    ensures s.iter.count == it.count && s.iter.index == it.index + 1
    ensures s.device.script == d.script
    ensures EnumeratesCyclically(s.device, ids) && ProbesCleanly(s.device) && NextAccepted(s.device, check)
    ensures OnTrack(s.iter, s.device, ids)
    ensures !HasNext(s.iter) ==> NextCallsSinceFirst(s.device.log) == it.index
    ensures Collect(it, d, check) ==
      Collect(s.iter, s.device, check).(adapters := [s.result.value] + Collect(s.iter, s.device, check).adapters)
  {
    NextOnTrack(it, d, ids, check);
    s := NextWith(it, d, check);
    SameScript(d, s.device, ids, check);
    CollectStep(it, d, check);
  }

  /** The driver contracts depend on the script alone, not on the calls made so far. */
  lemma SameScript(d: Device, d': Device, ids: seq<string>, check: NextCheck)
    requires d'.script == d.script
    requires EnumeratesCyclically(d, ids) && ProbesCleanly(d) && NextAccepted(d, check)
    ensures EnumeratesCyclically(d', ids) && ProbesCleanly(d') && NextAccepted(d', check)
  {
  }

  /** A successful next puts its adapter in front of the rest of the walk. */
  lemma CollectStep(it: Iter, d: Device, check: NextCheck)
    requires HasNext(it) && NextWith(it, d, check).result.Success?
    ensures var s := NextWith(it, d, check);
      Collect(it, d, check) ==
        Collect(s.iter, s.device, check).(adapters := [s.result.value] + Collect(s.iter, s.device, check).adapters)
  {
  }

  /** A full iteration from the constructor on a cyclic, cleanly probing
      driver whose getNextAdapter answers pass the check yields one adapter
      per attached id, in the driver's order, and calls getNextAdapter
      exactly count - 1 times. */
  lemma FullPass(d: Device, bitrate: Bitrate, ids: seq<string>, check: NextCheck)
    requires EnumeratesCyclically(d, ids) && ProbesCleanly(d) && NextAccepted(d, check)
    ensures var (it, d1) := Start(d, bitrate);
      var w := Collect(it, d1, check);
      && w.error.None?
      && AdapterIds(w.adapters) == ids
      && NextCallsSinceFirst(w.device.log) == |ids| - 1
  {
    var (it, d1) := Start(d, bitrate);
    assert NextCallsSinceFirst(d1.log) == 0;
    WalkOnTrack(it, d1, ids, check);
    assert ids[0..] == ids;
  }

  /** The full iteration of FullPass yields exactly the attached adapters,
      each with the serial number of its version string. */
  lemma FullPassSerials(d: Device, bitrate: Bitrate, ids: seq<string>, check: NextCheck, version: string -> string)
    requires EnumeratesCyclically(d, ids) && ProbesCleanly(d) && NextAccepted(d, check)
    requires ReportsVersions(d, version)
    ensures var (it, d1) := Start(d, bitrate);
      Collect(it, d1, check).adapters == Attached(ids, version)
  {
    var (it, d1) := Start(d, bitrate);
    assert NextCallsSinceFirst(d1.log) == 0;
    WalkSerials(it, d1, ids, check, version);
    assert ids[0..] == ids;
  }

  // ---------------------------------------------------------------------
  // The getNextAdapter check

  /** Where getNextAdapter answers ERROR_CANUSB_OK, next as written and next
      as intended agree. */
  lemma AgreeOnOk(it: Iter, d: Device)
    requires forall h :: d.script(h, GetNextAdapter).rc == ErrorOk
    ensures NextAsWritten(it, d) == Next(it, d)
  {
  }

  /** A driver that honours its contract but answers getNextAdapter with a
      positive value other than 1 breaks next as written after the first
      adapter, while next as intended goes on. */
  lemma AsWrittenRejectsPositiveNext(it: Iter, d: Device, ids: seq<string>)
    requires EnumeratesCyclically(d, ids) && ProbesCleanly(d)
    requires OnTrack(it, d, ids) && it.index + 1 < it.count
    requires forall h :: d.script(h, GetNextAdapter).rc == 2
    ensures NextAsWritten(it, d).result.Failure?
    ensures NextAsWritten(it, d).result.error.IllegalState?
    ensures NextAsWritten(it, d).result.error.cause.kind == General
    ensures Next(it, d).result.Success?
  {
    IntendedAccepts(d, ids);
    NextOnTrack(it, d, ids, Intended);
    ProbeClean(it, d);
  }

  /** On such a driver with two or more adapters, the full walk as written
      yields no adapter: the first next probes the first adapter, then fails
      with an IllegalStateException. The walk as intended yields them all. */
  lemma AsWrittenWalkStops(d: Device, bitrate: Bitrate, ids: seq<string>)
    requires EnumeratesCyclically(d, ids) && ProbesCleanly(d) && |ids| >= 2
    requires forall h :: d.script(h, GetNextAdapter).rc == 2
    ensures var (it, d1) := Start(d, bitrate);
      var w := Collect(it, d1, AsWritten);
      && w.adapters == []
      && w.error.Some? && w.error.value.IllegalState?
    ensures var (it, d1) := Start(d, bitrate);
      var w := Collect(it, d1, Intended);
      w.error.None? && AdapterIds(w.adapters) == ids
  {
    var (it, d1) := Start(d, bitrate);
    assert NextCallsSinceFirst(d1.log) == 0;
    AsWrittenRejectsPositiveNext(it, d1, ids);
    var s := NextAsWritten(it, d1);
    assert Collect(it, d1, AsWritten) == Walk([], Some(s.result.error), s.iter, s.device);
    IntendedAccepts(d, ids);
    FullPass(d, bitrate, ids, Intended);
  }
}
