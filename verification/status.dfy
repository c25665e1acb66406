/** Status: the adapter's CAN status word as returned by canusb_Status, its
    seven flag queries and its textual form. */
module StatusFlags {
  import opened JavaLang
  import opened NativeAccess

  /** A status word, kept as the 32-bit pattern of the int the driver
      returned; every query of the class works on that pattern. */
  datatype Status = Status(bits: bv32)

  /** The constructor: any int is accepted. */
  function StatusOf(value: Int32): (s: Status)
    ensures value == 0 <==> s.bits == 0
  {
    Status(Bits32(value))
  }

  /** isOK: no bit at all is set. */
  predicate IsOK(s: Status) {
    s.bits == 0
  }

  /** The query shared by the seven flag getters: all bits of `bit` are set. */
  predicate HasBits(s: Status, bit: bv32) {
    s.bits & bit == bit
  }

  predicate IsReceiveFifoFull(s: Status) { HasBits(s, ReceiveFifoFullBit) }
  predicate IsTransmitFifoFull(s: Status) { HasBits(s, TransmitFifoFullBit) }
  predicate IsErrorWarning(s: Status) { HasBits(s, ErrorWarningBit) }
  predicate IsDataOverrun(s: Status) { HasBits(s, DataOverrunBit) }
  predicate IsErrorPassive(s: Status) { HasBits(s, ErrorPassiveBit) }
  predicate IsArbitrationLost(s: Status) { HasBits(s, ArbitrationLostBit) }
  predicate IsBusError(s: Status) { HasBits(s, BusErrorBit) }

  /** The union of the seven known status bits. */
  const KnownBits: bv32 := ReceiveFifoFullBit | TransmitFifoFullBit | ErrorWarningBit
    | DataOverrunBit | ErrorPassiveBit | ArbitrationLostBit | BusErrorBit

  /** A bit outside the seven known ones is set. */
  predicate HasUnknownBits(s: Status) {
    s.bits & !KnownBits != 0
  }

  const ReceiveFifoFullName: string := "CANSTATUS_RECEIVE_FIFO_FULL"
  const TransmitFifoFullName: string := "CANSTATUS_TRANSMIT_FIFO_FULL"
  const ErrorWarningName: string := "CANSTATUS_ERROR_WARNING"
  const DataOverrunName: string := "CANSTATUS_DATA_OVERRUN"
  const ErrorPassiveName: string := "CANSTATUS_ERROR_PASSIVE"
  const ArbitrationLostName: string := "CANSTATUS_ARBITRATION_LOST"
  const BusErrorName: string := "CANSTATUS_BUS_ERROR"
  const UnknownName: string := "unknown error(s)"

  /** One comma-terminated item of the textual form, present only when `shown`. */
  function Item(shown: bool, name: string): string {
    if shown then name + ", " else ""
  }

  /** toString: "OK, ", then the name of each set flag in declaration order,
      then "unknown error(s), " if an unknown bit is set, then "0x" and the
      word in hex (Integer.toHexString prints the unsigned pattern). */
  function ToString(s: Status): string {
    Joined(Labels(s)) + "0x" + Digits(s.bits as int, 16)
  }

  /** The candidate items of toString in its order, each with whether it is shown. */
  function Labels(s: Status): seq<(bool, string)> {
    FlagLabels(s) + [(HasUnknownBits(s), UnknownName)]
  }

  /** The items before the unknown-bits item: OK and the seven flags. */
  function FlagLabels(s: Status): seq<(bool, string)> {
    [(IsOK(s), "OK"),
     (IsReceiveFifoFull(s), ReceiveFifoFullName),
     (IsTransmitFifoFull(s), TransmitFifoFullName),
     (IsErrorWarning(s), ErrorWarningName),
     (IsDataOverrun(s), DataOverrunName),
     (IsErrorPassive(s), ErrorPassiveName),
     (IsArbitrationLost(s), ArbitrationLostName),
     (IsBusError(s), BusErrorName)]
  }

  /** The shown items, each followed by ", ", in order. */
  function Joined(labels: seq<(bool, string)>): string
    decreases |labels|
  {
    if |labels| == 0 then "" else Item(labels[0].0, labels[0].1) + Joined(labels[1..])
  }

  // ---------------------------------------------------------------------
  // Properties of the queries

  /** The known bits are 0xEF: every bit but 0x10 of the low byte. */
  lemma KnownBitsValue()
    ensures KnownBits == 0xEF
  {
  }

  /** An OK status raises no flag and has no unknown bit. */
  lemma OkRaisesNothing(s: Status)
    requires IsOK(s)
    ensures !IsReceiveFifoFull(s) && !IsTransmitFifoFull(s) && !IsErrorWarning(s) && !IsDataOverrun(s)
    ensures !IsErrorPassive(s) && !IsArbitrationLost(s) && !IsBusError(s)
    ensures !HasUnknownBits(s)
  {
  }

  /** The unknown bits are exactly the unused bit 0x10 and every bit above
      the low byte. */
  lemma UnusedBitIsUnknown(s: Status)
    ensures HasUnknownBits(s) <==> s.bits & 0x10 != 0 || s.bits >= 0x100
  {
    KnownBitsValue();
    assert s.bits & !0xEF == (s.bits & 0x10) | (s.bits & 0xFFFF_FF00);
    assert s.bits & 0xFFFF_FF00 != 0 <==> s.bits >= 0x100;
  }

  /** A status is fully described by its seven flags and its unknown bits. */
  lemma FlagsDetermineStatus(s: Status, t: Status)
    requires IsReceiveFifoFull(s) == IsReceiveFifoFull(t) && IsTransmitFifoFull(s) == IsTransmitFifoFull(t)
    requires IsErrorWarning(s) == IsErrorWarning(t) && IsDataOverrun(s) == IsDataOverrun(t)
    requires IsErrorPassive(s) == IsErrorPassive(t) && IsArbitrationLost(s) == IsArbitrationLost(t)
    requires IsBusError(s) == IsBusError(t)
    requires s.bits & !KnownBits == t.bits & !KnownBits
    ensures s == t
  {
    assert s.bits & KnownBits == t.bits & KnownBits;
  }

  /** One of the seven single-bit status masks. */
  predicate IsKnownBit(b: bv32) {
    b == 0x01 || b == 0x02 || b == 0x04 || b == 0x08 || b == 0x20 || b == 0x40 || b == 0x80
  }

  /** The table of status bits holds exactly the seven known bits. */
  lemma KnownBitsTable(b: bv32)
    ensures IsKnownBit(b) <==> b in StatusBits
  {
  }

  /** The status with the bits of `bit` flipped. */
  function Flip(s: Status, bit: bv32): Status {
    Status(s.bits ^ bit)
  }

  /** Flipping one known bit changes that flag ... */
  lemma FlagToggles(s: Status, bit: bv32)
    requires IsKnownBit(bit)
    ensures HasBits(Flip(s, bit), bit) == !HasBits(s, bit)
  {
    if bit == 0x01 {} else if bit == 0x02 {} else if bit == 0x04 {} else if bit == 0x08 {}
    else if bit == 0x20 {} else if bit == 0x40 {} else {}
  }

  /** ... and leaves every other flag as it was. */
  lemma FlagsIndependent(s: Status, bit: bv32, other: bv32)
    requires IsKnownBit(bit) && IsKnownBit(other) && bit != other
    ensures HasBits(Flip(s, bit), other) == HasBits(s, other)
  {
    if other == 0x01 {} else if other == 0x02 {} else if other == 0x04 {} else if other == 0x08 {}
    else if other == 0x20 {} else if other == 0x40 {} else {}
  }

  /** Status 0x81: receive FIFO full and bus error, nothing else. */
  lemma Sample0x81()
    ensures var s := StatusOf(0x81);
      && !IsOK(s) && IsReceiveFifoFull(s) && IsBusError(s)
      && !IsTransmitFifoFull(s) && !IsErrorWarning(s) && !IsDataOverrun(s)
      && !IsErrorPassive(s) && !IsArbitrationLost(s) && !HasUnknownBits(s)
  {
    assert Bits32(0x81) == 0x81;
  }

  // ---------------------------------------------------------------------
  // Reading the word back from the text

  predicate IsHexChar(c: char) {
    '0' <= c <= '9' || 'a' <= c <= 'f'
  }

  /** The longest suffix of `t` made of hex digits. */
  function TrailingHex(t: string): (d: string)
    ensures |d| <= |t| && d == t[|t| - |d|..]
    decreases |t|
  {
    if |t| == 0 || !IsHexChar(t[|t| - 1]) then ""
    else TrailingHex(t[..|t| - 1]) + [t[|t| - 1]]
  }

  /** Recovers a status from its textual form: the trailing hex word, mod 2^32. */
  function ParseStatus(t: string): Status {
    Status((Value(TrailingHex(t), 16) % TwoTo32) as bv32)
  }

  lemma HexDigitChars(d: string)
    requires IsDigitString(d, 16)
    ensures forall i :: 0 <= i < |d| ==> IsHexChar(d[i])
  {
    forall i | 0 <= i < |d|
      ensures IsHexChar(d[i])
    {
      assert DigitChar(DigitValue(d[i])) == d[i];
    }
  }

  lemma {:induction false} TrailingHexOf(p: string, d: string)
    requires forall i :: 0 <= i < |d| ==> IsHexChar(d[i])
    ensures TrailingHex(p + "0x" + d) == d
    decreases |d|
  {
    var t := p + "0x" + d;
    if |d| == 0 {
      assert t[|t| - 1] == 'x';
    } else {
      var d' := d[..|d| - 1];
      assert t[..|t| - 1] == p + "0x" + d';
      assert t[|t| - 1] == d[|d| - 1];
      TrailingHexOf(p, d');
      assert d' + [d[|d| - 1]] == d;
    }
  }

  /** The textual form determines the status: the word is read back from the
      hex digits after the final "0x". */
  lemma ToStringRoundTrip(s: Status)
    ensures ParseStatus(ToString(s)) == s
  {
    ReadBack(Joined(Labels(s)), s.bits);
  }

  /** Whatever precedes it, "0x" and the hex digits of a word read back as that word. */
  lemma ReadBack(p: string, w: bv32)
    ensures ParseStatus(p + "0x" + Digits(w as int, 16)) == Status(w)
  {
    var hex := Digits(w as int, 16);
    HexDigitChars(hex);
    TrailingHexOf(p, hex);
    ValueOfDigits(w as int, 16);
    SmallMod(w as int, TwoTo32);
  }

  /** `t` is empty or does not start with 'O'. */
  predicate NoLeadingO(t: string) {
    |t| == 0 || t[0] != 'O'
  }

  lemma NoLeadingOAppend(a: string, b: string)
    requires NoLeadingO(a) && NoLeadingO(b)
    ensures NoLeadingO(a + b)
  {
    if |a| == 0 { assert a + b == b; }
  }

  /** Items whose names do not start with 'O' do not start with 'O' when joined. */
  lemma {:induction false} JoinedNoLeadingO(labels: seq<(bool, string)>)
    requires forall k :: 0 <= k < |labels| ==> |labels[k].1| > 0 && labels[k].1[0] != 'O'
    ensures NoLeadingO(Joined(labels))
    decreases |labels|
  {
    if |labels| > 0 && !labels[0].0 {
      JoinedNoLeadingO(labels[1..]);
    }
  }

  /** Every candidate item but OK starts with 'C' (a flag name) or 'u' (unknown). */
  lemma NamesLead(s: Status)
    ensures forall k :: 1 <= k < |Labels(s)| ==> |Labels(s)[k].1| > 0 && Labels(s)[k].1[0] != 'O'
  {
  }

  /** The text starts with "OK" exactly when the status is OK: every other
      item starts with 'C' or 'u', and the word with a digit. */
  lemma OkPrefix(s: Status)
    ensures ToString(s)[0] == 'O' <==> IsOK(s)
  {
    var hex := Digits(s.bits as int, 16);
    assert DigitChar(DigitValue(hex[0])) == hex[0];
    NamesLead(s);
    LeadingO(Labels(s), hex);
  }

  /** Joined items, "0x" and digits start with 'O' exactly when the first
      item is "OK" and shown, given that no other item starts with 'O'. */
  lemma LeadingO(labels: seq<(bool, string)>, hex: string)
    requires |labels| > 0 && labels[0].1 == "OK"
    requires forall k :: 1 <= k < |labels| ==> |labels[k].1| > 0 && labels[k].1[0] != 'O'
    requires NoLeadingO(hex)
    ensures (Joined(labels) + "0x" + hex)[0] == 'O' <==> labels[0].0
  {
    var joined := Joined(labels);
    var rest := labels[1..];
    assert joined == Item(labels[0].0, "OK") + Joined(rest);
    if labels[0].0 {
      assert joined[0] == 'O';
    } else {
      JoinedNoLeadingO(rest);
      assert joined == Joined(rest);
      NoLeadingOAppend(joined, "0x");
      NoLeadingOAppend(joined + "0x", hex);
    }
  }

  // ---------------------------------------------------------------------
  // The items of the text

  /** `u` occurs in `t` at position `i`. */
  predicate OccursAt(t: string, u: string, i: int) {
    0 <= i && i + |u| <= |t| && t[i..i + |u|] == u
  }

  /** The candidate items joined piecewise. */
  lemma {:induction false} JoinedAppend(a: seq<(bool, string)>, b: seq<(bool, string)>)
    ensures Joined(a + b) == Joined(a) + Joined(b)
    decreases |a|
  {
    if |a| == 0 {
      assert a + b == b;
    } else {
      assert (a + b)[1..] == a[1..] + b;
      JoinedAppend(a[1..], b);
    }
  }

  /** A character that no shown name contains, other than ',' and ' ', does
      not occur in the joined items. */
  lemma {:induction false} JoinedAvoids(labels: seq<(bool, string)>, c: char)
    requires c != ',' && c != ' '
    requires forall k :: 0 <= k < |labels| && labels[k].0 ==> c !in labels[k].1
    ensures c !in Joined(labels)
    decreases |labels|
  {
    if |labels| > 0 {
      JoinedAvoids(labels[1..], c);
    }
  }

  /** "OK, " opens the text exactly when the status is OK. */
  lemma OkText(s: Status)
    ensures IsOK(s) <==> |ToString(s)| >= 4 && ToString(s)[..4] == OkItem
  {
    OkPrefix(s);
    if IsOK(s) {
      var labels := Labels(s);
      assert Joined(labels) == OkItem + Joined(labels[1..]);
      PrefixOf(OkItem, Joined(labels[1..]), "0x", Digits(s.bits as int, 16));
    }
  }

  const OkItem: string := "OK, "

  /** The unknown-bits item as it appears in the text. */
  const UnknownItem: string := UnknownName + ", "

  /** "unknown error(s), " appears in the text exactly when a bit outside the
      seven known ones is set: it is the last item when shown, and no other
      item nor the hex word holds a lowercase 'u'. */
  lemma UnknownText(s: Status)
    ensures HasUnknownBits(s) <==> exists i :: OccursAt(ToString(s), UnknownItem, i)
  {
    if HasUnknownBits(s) {
      UnknownShown(s);
    } else {
      UnknownHidden(s);
      AbsentChar(ToString(s), UnknownItem);
    }
  }

  /** The text as the flag items, the unknown item, "0x" and the word. */
  lemma TextShape(s: Status)
    ensures ToString(s) ==
      Joined(FlagLabels(s)) + (Item(HasUnknownBits(s), UnknownName) + "") + "0x" + Digits(s.bits as int, 16)
  {
    JoinedAppend(FlagLabels(s), [(HasUnknownBits(s), UnknownName)]);
  }

  lemma UnknownShown(s: Status)
    requires HasUnknownBits(s)
    ensures OccursAt(ToString(s), UnknownItem, |Joined(FlagLabels(s))|)
  {
    TextShape(s);
    OccursInMiddle(Joined(FlagLabels(s)), UnknownItem, "", "0x", Digits(s.bits as int, 16));
  }

  lemma UnknownHidden(s: Status)
    requires !HasUnknownBits(s)
    ensures 'u' !in ToString(s)
  {
    TextShape(s);
    NoLowerU(s);
    JoinedAvoids(FlagLabels(s), 'u');
    var hex := Digits(s.bits as int, 16);
    HexHasNoU(hex);
    AbsentFromParts('u', Joined(FlagLabels(s)), Item(false, UnknownName) + "", "0x", hex);
  }

  lemma HexHasNoU(hex: string)
    requires IsDigitString(hex, 16)
    ensures 'u' !in hex
  {
    HexDigitChars(hex);
  }

  lemma AbsentFromParts(c: char, a: string, b: string, x: string, y: string)
    requires c !in a && c !in b && c !in x && c !in y
    ensures c !in a + b + x + y
  {
  }

  lemma PrefixOf(a: string, b: string, c: string, d: string)
    ensures |a + b + c + d| >= |a| && (a + b + c + d)[..|a|] == a
  {
    assert a + b + c + d == a + (b + c + d);
  }

  lemma OccursInMiddle(a: string, u: string, e: string, b: string, c: string)
    ensures OccursAt(a + (u + e) + b + c, u, |a|)
  {
    var t := a + (u + e) + b + c;
    assert t == a + u + (e + b + c);
    assert t[|a|..|a| + |u|] == u;
  }

  /** A text without the first character of `u` holds no occurrence of `u`. */
  lemma AbsentChar(t: string, u: string)
    requires |u| > 0 && u[0] !in t
    ensures forall i :: !OccursAt(t, u, i)
  {
  }

  /** No flag name, nor "OK", holds a lowercase 'u'. */
  lemma NoLowerU(s: Status)
    ensures forall k :: 0 <= k < |FlagLabels(s)| ==> 'u' !in FlagLabels(s)[k].1
  {
    NoLowerUA();
    NoLowerUB();
  }

  lemma NoLowerUA()
    ensures 'u' !in ReceiveFifoFullName && 'u' !in TransmitFifoFullName
    ensures 'u' !in ErrorWarningName && 'u' !in DataOverrunName
  {
  }

  lemma NoLowerUB()
    ensures 'u' !in ErrorPassiveName && 'u' !in ArbitrationLostName
    ensures 'u' !in BusErrorName && 'u' !in "OK"
  {
  }
}
