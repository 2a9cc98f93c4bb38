/**
 * The normalised record built for one observed path: Go's `BGPUpdateMessage`.
 * Pointer fields are `Option`s, so "attribute absent" (`None`) is a value
 * distinct from "present with value 0" (`Some(0)`). Slices are sequences and
 * `net.IP`, a byte slice, is a sequence of bytes whose empty value stands for
 * both the nil and the empty address.
 */
module BgpUpdateMessage {
  import opened Wrappers
  import opened MachineInts

  /** `net.IP`. */
  type IP = seq<byte>

  /** One route: an 8-bit prefix length and an address. */
  datatype Prefix = Prefix(prefixLength: uint8, prefix: IP)

  /** A multiprotocol reachable set: only this one carries a next hop. */
  datatype MPReach = MPReach(afi: uint16, safi: uint8, nextHop: IP, nlris: seq<Prefix>)

  /** A multiprotocol unreachable set: address family and prefixes only. */
  datatype MPUnreach = MPUnreach(afi: uint16, safi: uint8, nlris: seq<Prefix>)

  /** A large community: exactly three 32-bit values, as Go's `[3]uint32`. */
  type LargeCommunityTriple = (uint32, uint32, uint32)

  datatype BGPUpdateMessage = BGPUpdateMessage(
    withdrawnRoutes: seq<Prefix>,
    origin: Option<uint8>,                // 0 = IGP, 1 = EGP, 2 = INCOMPLETE
    asPath: seq<seq<uint32>>,
    nextHop: IP,
    med: Option<uint32>,
    localPref: Option<uint32>,
    atomicAggregate: bool,
    aggregatorAS: Option<uint32>,
    aggregatorAddress: IP,
    communities: seq<uint32>,
    communityStrings: seq<string>,
    extendedCommunities: seq<seq<byte>>,
    largeCommunities: seq<LargeCommunityTriple>,
    rpkiValidationState: Option<string>,
    mpReachNLRI: MPReach,
    mpUnreachNLRI: MPUnreach,
    nlri: seq<Prefix>,
    isWithdraw: bool,
    fromPeer: string,
    timestamp: int64)

  /** The Go zero value of the multiprotocol reachable struct. */
  const EmptyMPReach := MPReach(0, 0, [], [])

  /** The Go zero value of the multiprotocol unreachable struct. */
  const EmptyMPUnreach := MPUnreach(0, 0, [])

  /** The origin codes the record's comment documents (section 5.1.1 of RFC 4271). */
  datatype OriginCode = IGP | EGP | INCOMPLETE

  /** Reads a stored origin value as a documented code; nothing enforces that it is one. */
  function OriginCodeOf(v: uint8): (r: Option<OriginCode>)
    ensures r == Some(IGP) <==> v == 0
    ensures r == Some(EGP) <==> v == 1
    ensures r == Some(INCOMPLETE) <==> v == 2
    ensures r.None? <==> v > 2
  {
    if v == 0 then Some(IGP)
    else if v == 1 then Some(EGP)
    else if v == 2 then Some(INCOMPLETE)
    else None
  }
}
