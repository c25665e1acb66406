/** Adapter: an attached CANUSB adapter, known by its serial number and the
    driver's adapter id; channels are opened on it by id. */
module Adapters {
  import opened JavaLang
  import opened NativeAccess
  import opened Flags
  import opened Bitrates
  import opened Acceptance
  import Channels

  datatype Adapter = Adapter(serialNumber: string, adapterID: string)

  const AdapterPrefix: string := "CANUSB # "

  /** toString: "CANUSB # " and the serial number. */
  function ToString(a: Adapter): (s: string)
    ensures |s| == |AdapterPrefix| + |a.serialNumber|
    ensures s[..|AdapterPrefix|] == AdapterPrefix
    ensures s[|AdapterPrefix|..] == a.serialNumber
  {
    AdapterPrefix + a.serialNumber
  }

  /** Adapters print alike exactly when their serial numbers agree. */
  lemma ToStringInjective(a: Adapter, b: Adapter)
    ensures ToString(a) == ToString(b) <==> a.serialNumber == b.serialNumber
  {
    if ToString(a) == ToString(b) {
      assert a.serialNumber == ToString(a)[|AdapterPrefix|..];
    }
  }

  /** openChannel: opens a channel on this adapter's id, passing bitrate,
      acceptance filter and flags through unchanged. */
  function OpenChannel(a: Adapter, d: Device, bitrate: Bitrate, code: AcceptanceCode,
                       mask: AcceptanceMask, flags: seq<Flag>): (r: Channels.Answer<Channels.Channel>)
    ensures r.device.log == d.log + [Open(a.adapterID, Token(bitrate), code.code, mask.mask,
                                          MaskOf(Channels.FlagSet(flags)))]
    ensures r.result.Success? ==> r.result.value.adapterID == a.adapterID
  {
    Channels.OpenChannel(d, a.adapterID, bitrate, code, mask, flags)
  }
}
