/** The command line of the Logger tool: the options it reads before it
    starts logging, and how it picks the adapter to log on. */
module CommandLine {
  import opened JavaLang
  import opened Wrappers
  import opened NativeAccess
  import opened Bitrates
  import opened Adapters
  import opened AdapterIterators

  /** How the logger receives frames. */
  datatype Mode = Loop | Callback

  /** A warning printed on the error stream while reading the options. */
  datatype Warning =
    | InvalidMode(argument: string)
    | UnknownArgument(argument: string)
    | MissingParameter(option: string)

  /** What the options set, and the warnings printed on the way. */
  datatype Settings = Settings(mode: Mode, bitrate: Bitrate, serialNumber: Option<string>, warnings: seq<Warning>)

  /** Before any option: callback mode, 250 kbps, no serial number. */
  const Defaults: Settings := Settings(Callback, Bitrate250kbps, None, [])

  const BitrateOption: string := "-bitrate"
  const ModeOption: string := "-mode"
  const SerialOption: string := "-sn"

  /** The options that take a parameter. */
  predicate IsOption(arg: string) {
    arg == BitrateOption || arg == ModeOption || arg == SerialOption
  }

  // ---------------------------------------------------------------------
  // Parameters

  /** The second spelling of a bitrate: "Nkbps", or "1Mbps" for 1000. */
  function LongToken(b: Bitrate): string {
    match b
    case Bitrate10kbps => "10kbps"
    case Bitrate20kbps => "20kbps"
    case Bitrate50kbps => "50kbps"
    case Bitrate100kbps => "100kbps"
    case Bitrate250kbps => "250kbps"
    case Bitrate500kbps => "500kbps"
    case Bitrate800kbps => "800kbps"
    case Bitrate1Mbps => "1Mbps"
  }

  /** The switch on the -bitrate parameter; a token it does not list is
      ignored. */
  function ParseBitrate(t: string): (r: Option<Bitrate>)
    ensures r.Some? ==> t == Token(r.value) || t == LongToken(r.value)
  {
    if t == "10" || t == "10kbps" then Some(Bitrate10kbps)
    else if t == "20" || t == "20kbps" then Some(Bitrate20kbps)
    else if t == "50" || t == "50kbps" then Some(Bitrate50kbps)
    else if t == "100" || t == "100kbps" then Some(Bitrate100kbps)
    else if t == "250" || t == "250kbps" then Some(Bitrate250kbps)
    else if t == "500" || t == "500kbps" then Some(Bitrate500kbps)
    else if t == "800" || t == "800kbps" then Some(Bitrate800kbps)
    else if t == "1000" || t == "1Mbps" then Some(Bitrate1Mbps)
    else None
  }

  /** The driver's token of every bitrate is recognised ... */
  lemma TokenRecognised(b: Bitrate)
    ensures ParseBitrate(Token(b)) == Some(b)
  {
    match b
    case Bitrate10kbps => assert ParseBitrate("10") == Some(b);
    case Bitrate20kbps => assert ParseBitrate("20") == Some(b);
    case Bitrate50kbps => assert ParseBitrate("50") == Some(b);
    case Bitrate100kbps => assert ParseBitrate("100") == Some(b);
    case Bitrate250kbps => assert ParseBitrate("250") == Some(b);
    case Bitrate500kbps => assert ParseBitrate("500") == Some(b);
    case Bitrate800kbps => assert ParseBitrate("800") == Some(b);
    case Bitrate1Mbps => assert ParseBitrate("1000") == Some(b);
  }

  /** ... and so is its long spelling. */
  lemma LongTokenRecognised(b: Bitrate)
    ensures ParseBitrate(LongToken(b)) == Some(b)
  {
    match b
    case Bitrate10kbps => assert ParseBitrate("10kbps") == Some(b);
    case Bitrate20kbps => assert ParseBitrate("20kbps") == Some(b);
    case Bitrate50kbps => assert ParseBitrate("50kbps") == Some(b);
    case Bitrate100kbps => assert ParseBitrate("100kbps") == Some(b);
    case Bitrate250kbps => assert ParseBitrate("250kbps") == Some(b);
    case Bitrate500kbps => assert ParseBitrate("500kbps") == Some(b);
    case Bitrate800kbps => assert ParseBitrate("800kbps") == Some(b);
    case Bitrate1Mbps => assert ParseBitrate("1Mbps") == Some(b);
  }

  /** The parameter names `b` exactly when it is one of its two spellings. */
  lemma ParseBitrateExactly(t: string, b: Bitrate)
    ensures ParseBitrate(t) == Some(b) <==> t == Token(b) || t == LongToken(b)
  {
    TokenRecognised(b);
    LongTokenRecognised(b);
  }

  /** The name of a mode constant. */
  function ModeName(m: Mode): string {
    match m
    case Loop => "LOOP"
    case Callback => "CALLBACK"
  }

  /** Mode.valueOf on the upper-cased parameter; no match is the
      IllegalArgumentException that leads to a warning. */
  function ParseMode(arg: string): (r: Option<Mode>)
    ensures r.Some? ==> ToUpperAscii(arg) == ModeName(r.value)
  {
    var upper := ToUpperAscii(arg);
    if upper == ModeName(Loop) then Some(Loop)
    else if upper == ModeName(Callback) then Some(Callback)
    else None
  }

  /** A mode parameter is accepted exactly when it spells a mode name in
      any mix of cases. */
  lemma ParseModeExactly(arg: string, m: Mode)
    ensures ParseMode(arg) == Some(m) <==> ToUpperAscii(arg) == ModeName(m)
  {
  }

  /** "loop" and "Callback" are accepted, "fast" is not. */
  lemma ModeSamples()
    ensures ParseMode("loop") == Some(Loop)
    ensures ParseMode("Callback") == Some(Callback)
    ensures ParseMode("fast") == None
  {
    UpperSample("loop", "LOOP");
    UpperSample("Callback", "CALLBACK");
    assert ToUpperAscii("fast")[0] == 'F';
  }

  lemma UpperSample(s: string, u: string)
    requires |s| == |u| && forall i :: 0 <= i < |s| ==> UpperAscii(s[i]) == u[i]
    ensures ToUpperAscii(s) == u
  {
  }

  // ---------------------------------------------------------------------
  // The argument loop

  /** The effect of an option with its parameter. */
  function Apply(option: string, parameter: string, st: Settings): (r: Settings)
    requires IsOption(option)
    ensures option != BitrateOption ==> r.bitrate == st.bitrate
    ensures option != ModeOption ==> r.mode == st.mode
    ensures option != SerialOption ==> r.serialNumber == st.serialNumber
    ensures option == SerialOption ==> r.serialNumber == Some(parameter)
  {
    if option == BitrateOption then
      match ParseBitrate(parameter)
      case Some(b) => st.(bitrate := b)
      case None => st
    else if option == ModeOption then
      match ParseMode(parameter)
      case Some(m) => st.(mode := m)
      case None => st.(warnings := st.warnings + [InvalidMode(parameter)])
    else
      st.(serialNumber := Some(parameter))
  }

  /** The loop of main over the remaining arguments: an option consumes its
      parameter, anything else is warned about and skipped, and an option
      without a parameter ends the loop with a warning. */
  function Parse(args: seq<string>, st: Settings): (r: Settings)
    ensures |r.warnings| <= |st.warnings| + |args|
    decreases |args|
  {
    if |args| == 0 then st
    else if IsOption(args[0]) then
      if |args| == 1 then st.(warnings := st.warnings + [MissingParameter(args[0])])
      else Parse(args[2..], Apply(args[0], args[1], st))
    else Parse(args[1..], st.(warnings := st.warnings + [UnknownArgument(args[0])]))
  }

  /** The arguments of main, read with a moving position as main does. */
  method ParseArguments(args: seq<string>) returns (st: Settings)
    ensures st == Parse(args, Defaults)
  {
    st := Defaults;
    var pos := 0;
    while pos < |args|
      invariant 0 <= pos <= |args| + 1
      invariant pos <= |args| ==> Parse(args[pos..], st) == Parse(args, Defaults)
      invariant pos == |args| + 1 ==> st == Parse(args, Defaults)
      decreases |args| + 1 - pos
    {
      var arg := args[pos];
      pos := pos + 1;
      if IsOption(arg) {
        if pos < |args| {
          var parameter := args[pos];
          pos := pos + 1;
          assert args[pos - 2..][2..] == args[pos..];
          st := Apply(arg, parameter, st);
        } else {
          st := st.(warnings := st.warnings + [MissingParameter(arg)]);
          pos := pos + 1;
        }
      } else {
        assert args[pos - 1..][1..] == args[pos..];
        st := st.(warnings := st.warnings + [UnknownArgument(arg)]);
      }
    }
    if pos == |args| {
      assert args[pos..] == [];
    }
  }

  // ---------------------------------------------------------------------
  // Properties of the loop

  /** The arguments split into whole items: no option at the end lacks its
      parameter. */
  predicate Complete(args: seq<string>)
    decreases |args|
  {
    if |args| == 0 then true
    else if IsOption(args[0]) then |args| >= 2 && Complete(args[2..])
    else Complete(args[1..])
  }

  /** Reading complete arguments and then more is reading the rest from
      where the first part left off. */
  lemma {:induction false} ParseAppend(a: seq<string>, b: seq<string>, st: Settings)
    requires Complete(a)
    ensures Parse(a + b, st) == Parse(b, Parse(a, st))
    decreases |a|
  {
    if |a| > 0 {
      var ab := a + b;
      assert ab[0] == a[0];
      if IsOption(a[0]) {
        assert ab[1] == a[1];
        assert ab[2..] == a[2..] + b;
        ParseAppend(a[2..], b, Apply(a[0], a[1], st));
      } else {
        assert ab[1..] == a[1..] + b;
        ParseAppend(a[1..], b, st.(warnings := st.warnings + [UnknownArgument(a[0])]));
      }
    } else {
      assert a + b == b;
    }
  }

  /** Warnings are only ever added, in order. */
  lemma {:induction false} WarningsGrow(args: seq<string>, st: Settings)
    ensures st.warnings <= Parse(args, st).warnings
    decreases |args|
  {
    if |args| > 0 {
      if IsOption(args[0]) {
        if |args| > 1 {
          WarningsGrow(args[2..], Apply(args[0], args[1], st));
        }
      } else {
        WarningsGrow(args[1..], st.(warnings := st.warnings + [UnknownArgument(args[0])]));
      }
    }
  }

  /** Arguments that never mention -bitrate leave the bitrate alone. */
  lemma {:induction false} BitrateUntouched(args: seq<string>, st: Settings)
    requires forall i :: 0 <= i < |args| ==> args[i] != BitrateOption
    ensures Parse(args, st).bitrate == st.bitrate
    decreases |args|
  {
    if |args| > 1 && IsOption(args[0]) {
      BitrateUntouched(args[2..], Apply(args[0], args[1], st));
    } else if |args| > 0 && !IsOption(args[0]) {
      BitrateUntouched(args[1..], st.(warnings := st.warnings + [UnknownArgument(args[0])]));
    }
  }

  /** Arguments that never mention -mode leave the mode alone. */
  lemma {:induction false} ModeUntouched(args: seq<string>, st: Settings)
    requires forall i :: 0 <= i < |args| ==> args[i] != ModeOption
    ensures Parse(args, st).mode == st.mode
    decreases |args|
  {
    if |args| > 1 && IsOption(args[0]) {
      ModeUntouched(args[2..], Apply(args[0], args[1], st));
    } else if |args| > 0 && !IsOption(args[0]) {
      ModeUntouched(args[1..], st.(warnings := st.warnings + [UnknownArgument(args[0])]));
    }
  }

  /** Arguments that never mention -sn leave the serial number alone. */
  lemma {:induction false} SerialUntouched(args: seq<string>, st: Settings)
    requires forall i :: 0 <= i < |args| ==> args[i] != SerialOption
    ensures Parse(args, st).serialNumber == st.serialNumber
    decreases |args|
  {
    if |args| > 1 && IsOption(args[0]) {
      SerialUntouched(args[2..], Apply(args[0], args[1], st));
    } else if |args| > 0 && !IsOption(args[0]) {
      SerialUntouched(args[1..], st.(warnings := st.warnings + [UnknownArgument(args[0])]));
    }
  }

  /** The last -bitrate with a recognised parameter decides: after it, only
      arguments without -bitrate follow. */
  lemma LastBitrateWins(a: seq<string>, t: string, b: Bitrate, c: seq<string>, st: Settings)
    requires Complete(a) && ParseBitrate(t) == Some(b)
    requires forall i :: 0 <= i < |c| ==> c[i] != BitrateOption
    ensures Parse(a + [BitrateOption, t] + c, st).bitrate == b
  {
    var mid := Parse(a, st);
    ParseAppend(a, [BitrateOption, t] + c, st);
    assert a + [BitrateOption, t] + c == a + ([BitrateOption, t] + c);
    assert ([BitrateOption, t] + c)[2..] == c;
    BitrateUntouched(c, Apply(BitrateOption, t, mid));
  }

  /** The last -mode with a valid parameter decides the mode. */
  lemma LastModeWins(a: seq<string>, arg: string, mode: Mode, c: seq<string>, st: Settings)
    requires Complete(a) && ParseMode(arg) == Some(mode)
    requires forall i :: 0 <= i < |c| ==> c[i] != ModeOption
    ensures Parse(a + [ModeOption, arg] + c, st).mode == mode
  {
    var mid := Parse(a, st);
    ParseAppend(a, [ModeOption, arg] + c, st);
    assert a + [ModeOption, arg] + c == a + ([ModeOption, arg] + c);
    assert ([ModeOption, arg] + c)[2..] == c;
    ModeUntouched(c, Apply(ModeOption, arg, mid));
  }

  /** A -mode parameter that names no mode is warned about and changes nothing else. */
  lemma InvalidModeWarned(arg: string, st: Settings)
    requires ParseMode(arg) == None
    ensures Parse([ModeOption, arg], st) == st.(warnings := st.warnings + [InvalidMode(arg)])
  {
    assert [ModeOption, arg][2..] == [];
  }

  /** The last -sn decides the serial number, whatever its parameter. */
  lemma LastSerialWins(a: seq<string>, sn: string, c: seq<string>, st: Settings)
    requires Complete(a)
    requires forall i :: 0 <= i < |c| ==> c[i] != SerialOption
    ensures Parse(a + [SerialOption, sn] + c, st).serialNumber == Some(sn)
  {
    var mid := Parse(a, st);
    ParseAppend(a, [SerialOption, sn] + c, st);
    assert a + [SerialOption, sn] + c == a + ([SerialOption, sn] + c);
    assert ([SerialOption, sn] + c)[2..] == c;
    SerialUntouched(c, Apply(SerialOption, sn, mid));
  }

  /** An unlisted bitrate token is dropped without a warning. */
  lemma UnknownBitrateIgnored(t: string, st: Settings)
    requires ParseBitrate(t) == None
    ensures Parse([BitrateOption, t], st) == st
  {
    assert [BitrateOption, t][2..] == [];
  }

  /** An option in last position is reported and ends the loop: nothing it
      would set changes. */
  lemma MissingParameterEnds(a: seq<string>, option: string, st: Settings)
    requires Complete(a) && IsOption(option)
    ensures var r := Parse(a + [option], st);
      && r.warnings == Parse(a, st).warnings + [MissingParameter(option)]
      && r.bitrate == Parse(a, st).bitrate && r.mode == Parse(a, st).mode
      && r.serialNumber == Parse(a, st).serialNumber
  {
    ParseAppend(a, [option], st);
  }

  /** No arguments: the defaults, without warnings. */
  lemma NoArguments()
    ensures Parse([], Defaults) == Defaults
  {
  }

  // ---------------------------------------------------------------------
  // Choosing the adapter

  /** Why the logger stops before logging: no adapter (the NullPointerException
      main throws), or an error of the iterator, which main lets through. */
  datatype SelectError = NotFound(message: string) | IteratorError(error: IterError)

  const NoAdapterText: string := "No CANUSB adapter found!"
  const FoundText: string := " found!"

  /** The message when no adapter has the serial number: "No " and the
      adapter's toString, then " found!". */
  function NoSerialText(sn: string): (m: string)
    ensures m == "No " + Adapters.ToString(Adapter(sn, "")) + FoundText
  {
    "No " + AdapterPrefix + sn + FoundText
  }

  /** An iterator result turned into the logger's: NoSuchElement becomes the
      not-found error with `message`, other errors pass through. */
  function Chosen(r: Result<Adapter, IterError>, message: string): (c: Result<Adapter, SelectError>)
    ensures c.Success? <==> r.Success?
    ensures c.Success? ==> c.value == r.value
    ensures r.Failure? ==> (c.error == NotFound(message) <==> r.error == NoSuchElement)
  {
    match r
    case Success(a) => Success(a)
    case Failure(NoSuchElement) => Failure(NotFound(message))
    case Failure(e) => Failure(IteratorError(e))
  }

  /** The adapter-selection branch of main: with no serial number the first
      adapter the iterator yields, otherwise the last one with that serial
      number. `check` is the test next applies to getNextAdapter: main as
      written runs with AsWritten. */
  method SelectAdapter(d: Device, bitrate: Bitrate, serialNumber: Option<string>, check: NextCheck)
    returns (r: Result<Adapter, SelectError>, d': Device)
    ensures var (it, d1) := Start(d, bitrate);
      serialNumber.None? ==> r == Chosen(NextWith(it, d1, check).result, NoAdapterText)
    ensures var (it, d1) := Start(d, bitrate);
      serialNumber.Some? ==> r == Chosen(Drain(it, d1, serialNumber.value, None, check).result, NoSerialText(serialNumber.value))
    ensures var (it, d1) := Start(d, bitrate);
      && d1.log == d.log + [GetFirstAdapter]
      && (serialNumber.None? ==> d' == NextWith(it, d1, check).device)
      && (serialNumber.Some? ==> d' == Drain(it, d1, serialNumber.value, None, check).device)
    ensures d'.script == d.script
    ensures r.Success? && serialNumber.Some? ==> r.value.serialNumber == serialNumber.value
    ensures var (it, d1) := Start(d, bitrate);
      var w := Collect(it, d1, check);
      serialNumber.Some? && w.error.None? ==>
        var m := LastMatch(w.adapters, serialNumber.value);
        r == if m.Some? then Success(m.value) else Failure(NotFound(NoSerialText(serialNumber.value)))
    ensures var (it, d1) := Start(d, bitrate);
      var w := Collect(it, d1, check);
      serialNumber.Some? && w.error.Some? ==> r == Failure(IteratorError(w.error.value))
  {
    var (it, d1) := Start(d, bitrate);
    if serialNumber.None? {
      var s := NextWith(it, d1, check);
      r, d' := Chosen(s.result, NoAdapterText), s.device;
    } else {
      var s := NextWithSerial(it, d1, serialNumber.value, check);
      r, d' := Chosen(s.result, NoSerialText(serialNumber.value)), s.device;
      DrainIsLastMatch(it, d1, serialNumber.value, None, check);
    }
  }

  /** A driver that reports no adapter: the logger stops with "No CANUSB
      adapter found!" when no serial number is given. */
  lemma NoAdapterAttached(d: Device, bitrate: Bitrate, check: NextCheck)
    requires d.script(d.log, GetFirstAdapter).rc <= 0
    ensures var (it, d1) := Start(d, bitrate);
      Chosen(NextWith(it, d1, check).result, NoAdapterText) == Failure(NotFound(NoAdapterText))
  {
  }

  /** On a cyclic, cleanly probing driver whose getNextAdapter answers pass
      the check, the logger without a serial number takes the first adapter
      the driver lists. */
  lemma FirstAdapterChosen(d: Device, bitrate: Bitrate, ids: seq<string>, check: NextCheck)
    requires EnumeratesCyclically(d, ids) && ProbesCleanly(d) && NextAccepted(d, check)
    ensures var (it, d1) := Start(d, bitrate);
      var c := Chosen(NextWith(it, d1, check).result, NoAdapterText);
      && c.Success? && c.value.adapterID == ids[0]
      && c.value.serialNumber == Probe(it, d1).0.value
  {
    var (it, d1) := Start(d, bitrate);
    assert NextCallsSinceFirst(d1.log) == 0;
    NextOnTrack(it, d1, ids, check);
  }

  /** On a driver whose walk runs to the end, a serial number is not found
      exactly when no adapter of the walk carries it. */
  lemma SerialNotFoundExactly(d: Device, bitrate: Bitrate, sn: string, check: NextCheck)
    requires var (it, d1) := Start(d, bitrate); Collect(it, d1, check).error.None?
    ensures var (it, d1) := Start(d, bitrate);
      var w := Collect(it, d1, check).adapters;
      var notFound := Chosen(Drain(it, d1, sn, None, check).result, NoSerialText(sn)) == Failure(NotFound(NoSerialText(sn)));
      notFound <==> forall i :: 0 <= i < |w| ==> w[i].serialNumber != sn
  {
    var (it, d1) := Start(d, bitrate);
    DrainIsLastMatch(it, d1, sn, None, check);
    LastMatchSpec(Collect(it, d1, check).adapters, sn);
  }

  /** On a driver with two or more adapters that answers getNextAdapter with
      the documented positive value 2, main as written stops with the
      iterator's IllegalStateException whether or not a serial number is
      given; with the documented check it finds the first adapter. */
  lemma AsWrittenSelectionFails(d: Device, bitrate: Bitrate, ids: seq<string>, sn: string)
    requires EnumeratesCyclically(d, ids) && ProbesCleanly(d) && |ids| >= 2
    requires forall h :: d.script(h, GetNextAdapter).rc == 2
    ensures var (it, d1) := Start(d, bitrate);
      var c := Chosen(NextWith(it, d1, AsWritten).result, NoAdapterText);
      c.Failure? && c.error.IteratorError? && c.error.error.IllegalState?
    ensures var (it, d1) := Start(d, bitrate);
      var c := Chosen(Drain(it, d1, sn, None, AsWritten).result, NoSerialText(sn));
      c.Failure? && c.error.IteratorError? && c.error.error.IllegalState?
    ensures var (it, d1) := Start(d, bitrate);
      Chosen(NextWith(it, d1, Intended).result, NoAdapterText).Success?
  {
    var (it, d1) := Start(d, bitrate);
    assert NextCallsSinceFirst(d1.log) == 0;
    AsWrittenRejectsPositiveNext(it, d1, ids);
    AsWrittenWalkStops(d, bitrate, ids);
    DrainIsLastMatch(it, d1, sn, None, AsWritten);
  }
}
