/** Bitrate: the bus speeds the adapter supports and the token the driver
    expects for each. */
module Bitrates {

  datatype Bitrate =
    | Bitrate10kbps
    | Bitrate20kbps
    | Bitrate50kbps
    | Bitrate100kbps
    | Bitrate250kbps
    | Bitrate500kbps
    | Bitrate800kbps
    | Bitrate1Mbps

  /** toString: the driver's bitrate token (kbps; "1000" for 1 Mbps). */
  function Token(b: Bitrate): string {
    match b
    case Bitrate10kbps => "10"
    case Bitrate20kbps => "20"
    case Bitrate50kbps => "50"
    case Bitrate100kbps => "100"
    case Bitrate250kbps => "250"
    case Bitrate500kbps => "500"
    case Bitrate800kbps => "800"
    case Bitrate1Mbps => "1000"
  }

  /** The variants in declaration order. */
  const AllBitrates: seq<Bitrate> := [Bitrate10kbps, Bitrate20kbps, Bitrate50kbps, Bitrate100kbps,
    Bitrate250kbps, Bitrate500kbps, Bitrate800kbps, Bitrate1Mbps]

  /** The tokens, in declaration order, are the ones the driver documents. */
  lemma TokensInOrder()
    ensures |AllBitrates| == 8
    ensures forall b: Bitrate :: b in AllBitrates
    ensures forall i :: 0 <= i < |AllBitrates| ==>
      Token(AllBitrates[i]) == ["10", "20", "50", "100", "250", "500", "800", "1000"][i]
  {
    forall b: Bitrate
      ensures b in AllBitrates
    {
      match b
      case Bitrate10kbps => assert AllBitrates[0] == b;
      case Bitrate20kbps => assert AllBitrates[1] == b;
      case Bitrate50kbps => assert AllBitrates[2] == b;
      case Bitrate100kbps => assert AllBitrates[3] == b;
      case Bitrate250kbps => assert AllBitrates[4] == b;
      case Bitrate500kbps => assert AllBitrates[5] == b;
      case Bitrate800kbps => assert AllBitrates[6] == b;
      case Bitrate1Mbps => assert AllBitrates[7] == b;
    }
  }

  /** No two bitrates share a token. */
  lemma TokenInjective(a: Bitrate, b: Bitrate)
    requires Token(a) == Token(b)
    ensures a == b
  {
  }
}
