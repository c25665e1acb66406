/** Flag: the options a channel is opened with, each one bit of the
    driver's open-flags word. */
module Flags {
  import opened Wrappers
  import NativeAccess

  datatype Flag = Timestamp | QueueReplace | Block | Slow | NoLocalSende

  /** getNativeFlag: the driver bit the option stands for. */
  function NativeFlag(f: Flag): bv32 {
    match f
    case Timestamp => NativeAccess.FlagTimestamp
    case QueueReplace => NativeAccess.FlagQueueReplace
    case Block => NativeAccess.FlagBlock
    case Slow => NativeAccess.FlagSlow
    case NoLocalSende => NativeAccess.FlagNoLocalSend
  }

  /** toString: the constructor never stores its description, so it is null. */
  function Description(f: Flag): (d: Option<string>)
    ensures d.None?
  {
    None
  }

  /** The flags word standing for a set of options. */
  function MaskOf(s: set<Flag>): bv32 {
    (if Timestamp in s then NativeAccess.FlagTimestamp else 0)
    | (if QueueReplace in s then NativeAccess.FlagQueueReplace else 0)
    | (if Block in s then NativeAccess.FlagBlock else 0)
    | (if Slow in s then NativeAccess.FlagSlow else 0)
    | (if NoLocalSende in s then NativeAccess.FlagNoLocalSend else 0)
  }

  /** Every option is one bit and no two options share it. */
  lemma SingleDistinctBits(f: Flag, g: Flag)
    ensures NativeFlag(f) != 0 && NativeFlag(f) & (NativeFlag(f) - 1) == 0
    ensures f != g ==> NativeFlag(f) & NativeFlag(g) == 0
  {
  }

  /** A set of options is read back from its flags word bit by bit. */
  lemma MaskOfMembership(s: set<Flag>, f: Flag)
    ensures f in s <==> MaskOf(s) & NativeFlag(f) != 0
  {
  }

  /** The set of options a flags word stands for (bits outside the five are ignored). */
  function OptionsOf(w: bv32): set<Flag> {
    (if w & NativeAccess.FlagTimestamp != 0 then {Timestamp} else {})
    + (if w & NativeAccess.FlagQueueReplace != 0 then {QueueReplace} else {})
    + (if w & NativeAccess.FlagBlock != 0 then {Block} else {})
    + (if w & NativeAccess.FlagSlow != 0 then {Slow} else {})
    + (if w & NativeAccess.FlagNoLocalSend != 0 then {NoLocalSende} else {})
  }

  /** Reading a flags word back gives the options it was built from. */
  lemma OptionsOfMask(s: set<Flag>)
    ensures OptionsOf(MaskOf(s)) == s
  {
    var w := MaskOf(s);
    forall f: Flag
      ensures f in OptionsOf(w) <==> f in s
    {
      MaskOfMembership(s, f);
    }
  }

  /** Distinct sets of options give distinct flags words. */
  lemma MaskOfInjective(s: set<Flag>, t: set<Flag>)
    requires MaskOf(s) == MaskOf(t)
    ensures s == t
  {
    OptionsOfMask(s);
    OptionsOfMask(t);
  }

  /** OR-ing one more option into a word is MaskOf of the larger set. */
  lemma MaskOfInsert(s: set<Flag>, f: Flag)
    ensures MaskOf(s) | NativeFlag(f) == MaskOf(s + {f})
  {
  }
}
