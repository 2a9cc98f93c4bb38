/**
 * The messages the protocol engine hands to the watch callback. Each path
 * attribute arrives as an opaque protobuf `Any`; here it is a closed sum of the
 * nine kinds the decoder knows plus `Unknown`, so at most one decoding branch
 * applies to each attribute, and none applies to an `Unknown` one.
 */
module GobgpApi {
  import opened Wrappers
  import opened MachineInts

  /** One AS_PATH segment: its type (set, sequence, ...) and its AS numbers. */
  datatype AsSegment = AsSegment(segmentType: uint32, numbers: seq<uint32>)

  /** One large community, as the engine reports it. */
  datatype LargeCommunity = LargeCommunity(globalAdmin: uint32, localData1: uint32, localData2: uint32)

  datatype Attribute =
    | NextHopAttr(nextHop: string)
    | OriginAttr(origin: uint32)
    | MultiExitDiscAttr(med: uint32)
    | LocalPrefAttr(localPref: uint32)
    | AggregatorAttr(asn: uint32, address: string)
    | CommunitiesAttr(communities: seq<uint32>)
      /** Each entry is itself an `Any`; `None` is a nil entry, `Some(v)` its value bytes. */
    | ExtendedCommunitiesAttr(extCommunities: seq<Option<seq<byte>>>)
    | LargeCommunitiesAttr(largeCommunities: seq<LargeCommunity>)
    | AsPathAttr(segments: seq<AsSegment>)
      /**
       * Any attribute that matches none of the nine kinds: another type URL,
       * a known type URL whose payload does not unmarshal, or a nil `Any`.
       */
    | Unknown(typeUrl: string)

  /** The path's reachability field: either an `IPAddressPrefix` or anything that does not decode as one. */
  datatype Nlri =
    | IPAddressPrefix(prefixLen: uint32, prefix: string)
    | OtherNlri

  /** The engine's origin-validation result. */
  datatype Validation = Validation(state: int32)

  /**
   * One path of a table event. `age` and `validation` are message pointers
   * that may be nil (`None`); the source reads them through nil-safe getters.
   */
  datatype Path = Path(
    neighborIp: string,
    age: Option<int64>,
    isWithdraw: bool,
    pattrs: seq<Attribute>,
    nlri: Nlri,
    validation: Option<Validation>)

  /** `path.GetAge().GetSeconds()`: zero when the age is nil. */
  function AgeSeconds(path: Path): int64
  {
    match path.age
    case None => 0
    case Some(s) => s
  }

  /** `path.GetValidation().GetState()`: zero when the validation is nil. */
  function ValidationState(path: Path): int32
  {
    match path.validation
    case None => 0
    case Some(v) => v.state
  }
}
