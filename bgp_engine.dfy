/**
 * The per-path decoding step of `MonitorPrefixes`: for every path the engine
 * reports, a fresh `BGPUpdateMessage` is initialised from the path's metadata,
 * the path attributes are read in order, the base NLRI is extracted and the
 * RPKI origin-validation state is named.
 *
 * `DecodedUpdate` says field by field what the record holds afterwards (each
 * scalar from the last attribute of its kind, each list the concatenation of
 * what every attribute of its kind contributes); `BuildUpdate` is the
 * imperative decoding loop, proved to build exactly that record. Textual
 * address parsing (`net.ParseIP`) is the parameter `parseIP`.
 */
module BgpEngine {
  import opened Wrappers
  import opened MachineInts
  import opened GobgpApi
  import opened BgpUpdateMessage
  import opened CommunityCodec

  /** The origin-validation codes of section 2 of RFC 8097, as the source numbers them. */
  const RpkiValid: int32 := 0
  const RpkiNotFound: int32 := 1
  const RpkiInvalid: int32 := 2

  /** The RPKI switch: a recognised code gets its name, any other code none. */
  function RpkiStateName(state: int32): (r: Option<string>)
    ensures r == Some("valid") <==> state == RpkiValid
    ensures r == Some("not-found") <==> state == RpkiNotFound
    ensures r == Some("invalid") <==> state == RpkiInvalid
    ensures r.None? <==> state != RpkiValid && state != RpkiNotFound && state != RpkiInvalid
  {
    if state == RpkiValid then Some("valid")
    else if state == RpkiInvalid then Some("invalid")
    else if state == RpkiNotFound then Some("not-found")
    else None
  }

  // What one attribute contributes to each field of the record.

  function NextHopOf(a: Attribute): Option<string>
  {
    if a.NextHopAttr? then Some(a.nextHop) else None
  }

  function OriginOf(a: Attribute): Option<uint8>
  {
    if a.OriginAttr? then Some(Uint8Of(a.origin)) else None
  }

  function MedOf(a: Attribute): Option<uint32>
  {
    if a.MultiExitDiscAttr? then Some(a.med) else None
  }

  function LocalPrefOf(a: Attribute): Option<uint32>
  {
    if a.LocalPrefAttr? then Some(a.localPref) else None
  }

  function AggregatorOf(a: Attribute): Option<(uint32, string)>
  {
    if a.AggregatorAttr? then Some((a.asn, a.address)) else None
  }

  function CommunitiesOf(a: Attribute): Option<seq<uint32>>
  {
    if a.CommunitiesAttr? then Some(a.communities) else None
  }

  function CommunityStringsOf(a: Attribute): seq<string>
  {
    if a.CommunitiesAttr? then FormatAll(a.communities) else []
  }

  function ExtendedCommunitiesOf(a: Attribute): seq<seq<byte>>
  {
    if a.ExtendedCommunitiesAttr? then PresentValues(a.extCommunities) else []
  }

  function LargeCommunitiesOf(a: Attribute): seq<LargeCommunityTriple>
  {
    if a.LargeCommunitiesAttr? then Triples(a.largeCommunities) else []
  }

  function AsPathOf(a: Attribute): seq<seq<uint32>>
  {
    if a.AsPathAttr? then SegmentNumbers(a.segments) else []
  }

  /** The values of the non-nil extended-community entries, in order. */
  function PresentValues(entries: seq<Option<seq<byte>>>): (r: seq<seq<byte>>)
    ensures |r| <= |entries|
    ensures forall v :: v in r <==> Some(v) in entries
    ensures |r| == |entries| <==> forall i :: 0 <= i < |entries| ==> entries[i].Some?
  {
    if entries == [] then []
    else
      var rest := PresentValues(entries[..|entries| - 1]);
      var last := entries[|entries| - 1];
      assert entries == entries[..|entries| - 1] + [last];
      match last
      case None => rest
      case Some(v) => rest + [v]
  }

  /** Each large community as its triple, in order. */
  function Triples(communities: seq<LargeCommunity>): (r: seq<LargeCommunityTriple>)
    ensures |r| == |communities|
    ensures forall i :: 0 <= i < |r| ==>
      r[i] == (communities[i].globalAdmin, communities[i].localData1, communities[i].localData2)
  {
    if communities == [] then []
    else
      var c := communities[|communities| - 1];
      Triples(communities[..|communities| - 1]) + [(c.globalAdmin, c.localData1, c.localData2)]
  }

  /** Each AS_PATH segment as its list of AS numbers, in order; the segment type is dropped. */
  function SegmentNumbers(segments: seq<AsSegment>): (r: seq<seq<uint32>>)
    ensures |r| == |segments|
    ensures forall i :: 0 <= i < |r| ==> r[i] == segments[i].numbers
  {
    if segments == [] then []
    else SegmentNumbers(segments[..|segments| - 1]) + [segments[|segments| - 1].numbers]
  }

  /** The contribution of the last attribute that has one: what a field overwritten by each of them ends up holding. */
  function LastOf<T>(attrs: seq<Attribute>, field: Attribute -> Option<T>): Option<T>
  {
    if attrs == [] then None
    else if field(attrs[|attrs| - 1]).Some? then field(attrs[|attrs| - 1])
    else LastOf(attrs[..|attrs| - 1], field)
  }

  /** The contributions of all attributes, in order: what a field appended to by each of them ends up holding. */
  function Collect<T>(attrs: seq<Attribute>, field: Attribute -> seq<T>): seq<T>
  {
    if attrs == [] then [] else Collect(attrs[..|attrs| - 1], field) + field(attrs[|attrs| - 1])
  }

  /** One more attribute at the end: its contribution, if it has one, replaces the previous value. */
  lemma LastOfSnoc<T>(s: seq<Attribute>, a: Attribute, field: Attribute -> Option<T>)
    ensures LastOf(s + [a], field) == if field(a).Some? then field(a) else LastOf(s, field)
  {
    assert (s + [a])[..|s|] == s;
  }

  /** One more attribute at the end: its contribution is appended. */
  lemma CollectSnoc<T>(s: seq<Attribute>, a: Attribute, field: Attribute -> seq<T>)
    ensures Collect(s + [a], field) == Collect(s, field) + field(a)
  {
    assert (s + [a])[..|s|] == s;
  }

  /** The record before any attribute is read: metadata copied, every optional field absent, every list empty. */
  function InitialUpdate(path: Path): BGPUpdateMessage
  {
    BGPUpdateMessage(
      withdrawnRoutes := [],
      origin := None,
      asPath := [],
      nextHop := [],
      med := None,
      localPref := None,
      atomicAggregate := false,
      aggregatorAS := None,
      aggregatorAddress := [],
      communities := [],
      communityStrings := [],
      extendedCommunities := [],
      largeCommunities := [],
      rpkiValidationState := None,
      mpReachNLRI := EmptyMPReach,
      mpUnreachNLRI := EmptyMPUnreach,
      nlri := [],
      isWithdraw := path.isWithdraw,
      fromPeer := path.neighborIp,
      timestamp := AgeSeconds(path))
  }

  /** What reading one attribute does to the record: a scalar is overwritten, a list extended, an unknown kind ignored. */
  function ApplyAttribute(u: BGPUpdateMessage, a: Attribute, parseIP: string -> IP): BGPUpdateMessage
  {
    match a
    case NextHopAttr(nh) => u.(nextHop := parseIP(nh))
    case OriginAttr(origin) => u.(origin := Some(Uint8Of(origin)))
    case MultiExitDiscAttr(med) => u.(med := Some(med))
    case LocalPrefAttr(lp) => u.(localPref := Some(lp))
    case AggregatorAttr(asn, address) => u.(aggregatorAS := Some(asn), aggregatorAddress := parseIP(address))
    case CommunitiesAttr(cs) => u.(communities := cs, communityStrings := u.communityStrings + FormatAll(cs))
    case ExtendedCommunitiesAttr(entries) => u.(extendedCommunities := u.extendedCommunities + PresentValues(entries))
    case LargeCommunitiesAttr(large) => u.(largeCommunities := u.largeCommunities + Triples(large))
    case AsPathAttr(segments) => u.(asPath := u.asPath + SegmentNumbers(segments))
    case Unknown(_) => u
  }

  /**
   * The record once the attributes `attrs` have been read into the initial
   * record, field by field: each overwritten field holds the contribution of
   * the last attribute of its kind (or stays as initialised when there is
   * none), each appended list the contributions of all of them, in order.
   */
  function AttributesRead(path: Path, attrs: seq<Attribute>, parseIP: string -> IP): BGPUpdateMessage
  {
    var nextHop, aggregator, communities := LastOf(attrs, NextHopOf), LastOf(attrs, AggregatorOf), LastOf(attrs, CommunitiesOf);
    BGPUpdateMessage(
      withdrawnRoutes := [],
      origin := LastOf(attrs, OriginOf),
      asPath := Collect(attrs, AsPathOf),
      nextHop := if nextHop.Some? then parseIP(nextHop.value) else [],
      med := LastOf(attrs, MedOf),
      localPref := LastOf(attrs, LocalPrefOf),
      atomicAggregate := false,
      aggregatorAS := if aggregator.Some? then Some(aggregator.value.0) else None,
      aggregatorAddress := if aggregator.Some? then parseIP(aggregator.value.1) else [],
      communities := if communities.Some? then communities.value else [],
      communityStrings := Collect(attrs, CommunityStringsOf),
      extendedCommunities := Collect(attrs, ExtendedCommunitiesOf),
      largeCommunities := Collect(attrs, LargeCommunitiesOf),
      rpkiValidationState := None,
      mpReachNLRI := EmptyMPReach,
      mpUnreachNLRI := EmptyMPUnreach,
      nlri := [],
      isWithdraw := path.isWithdraw,
      fromPeer := path.neighborIp,
      timestamp := AgeSeconds(path))
  }

  /** Reading one more attribute is one step of the attribute loop. */
  lemma AttributesReadSnoc(path: Path, attrs: seq<Attribute>, a: Attribute, parseIP: string -> IP)
    ensures AttributesRead(path, attrs + [a], parseIP) == ApplyAttribute(AttributesRead(path, attrs, parseIP), a, parseIP)
  {
    if a.NextHopAttr? || a.OriginAttr? || a.MultiExitDiscAttr? || a.LocalPrefAttr? || a.AggregatorAttr? {
      ScalarAttributeSnoc(path, attrs, a, parseIP);
    } else if a.CommunitiesAttr? || a.ExtendedCommunitiesAttr? {
      CommunityAttributeSnoc(path, attrs, a, parseIP);
    } else {
      OtherAttributeSnoc(path, attrs, a, parseIP);
    }
  }

  /** `AttributesReadSnoc` for the kinds that overwrite a scalar field. */
  lemma ScalarAttributeSnoc(path: Path, attrs: seq<Attribute>, a: Attribute, parseIP: string -> IP)
    requires a.NextHopAttr? || a.OriginAttr? || a.MultiExitDiscAttr? || a.LocalPrefAttr? || a.AggregatorAttr?
    ensures AttributesRead(path, attrs + [a], parseIP) == ApplyAttribute(AttributesRead(path, attrs, parseIP), a, parseIP)
  {
    AllFieldsSnoc(attrs, a);
  }

  /** `AttributesReadSnoc` for the communities and extended-communities kinds. */
  lemma CommunityAttributeSnoc(path: Path, attrs: seq<Attribute>, a: Attribute, parseIP: string -> IP)
    requires a.CommunitiesAttr? || a.ExtendedCommunitiesAttr?
    ensures AttributesRead(path, attrs + [a], parseIP) == ApplyAttribute(AttributesRead(path, attrs, parseIP), a, parseIP)
  {
    AllFieldsSnoc(attrs, a);
  }

  /** `AttributesReadSnoc` for large communities, AS_PATH and unknown kinds. */
  lemma OtherAttributeSnoc(path: Path, attrs: seq<Attribute>, a: Attribute, parseIP: string -> IP)
    requires a.LargeCommunitiesAttr? || a.AsPathAttr? || a.Unknown?
    ensures AttributesRead(path, attrs + [a], parseIP) == ApplyAttribute(AttributesRead(path, attrs, parseIP), a, parseIP)
  {
    AllFieldsSnoc(attrs, a);
  }

  /** Every field's contribution after one more attribute. */
  lemma AllFieldsSnoc(attrs: seq<Attribute>, a: Attribute)
    ensures LastOf(attrs + [a], NextHopOf) == if a.NextHopAttr? then NextHopOf(a) else LastOf(attrs, NextHopOf)
    ensures LastOf(attrs + [a], OriginOf) == if a.OriginAttr? then OriginOf(a) else LastOf(attrs, OriginOf)
    ensures LastOf(attrs + [a], MedOf) == if a.MultiExitDiscAttr? then MedOf(a) else LastOf(attrs, MedOf)
    ensures LastOf(attrs + [a], LocalPrefOf) == if a.LocalPrefAttr? then LocalPrefOf(a) else LastOf(attrs, LocalPrefOf)
    ensures LastOf(attrs + [a], AggregatorOf) == if a.AggregatorAttr? then AggregatorOf(a) else LastOf(attrs, AggregatorOf)
    ensures LastOf(attrs + [a], CommunitiesOf) == if a.CommunitiesAttr? then CommunitiesOf(a) else LastOf(attrs, CommunitiesOf)
    ensures Collect(attrs + [a], CommunityStringsOf) == Collect(attrs, CommunityStringsOf) + CommunityStringsOf(a)
    ensures Collect(attrs + [a], ExtendedCommunitiesOf) == Collect(attrs, ExtendedCommunitiesOf) + ExtendedCommunitiesOf(a)
    ensures Collect(attrs + [a], LargeCommunitiesOf) == Collect(attrs, LargeCommunitiesOf) + LargeCommunitiesOf(a)
    ensures Collect(attrs + [a], AsPathOf) == Collect(attrs, AsPathOf) + AsPathOf(a)
  {
    LastOfSnoc(attrs, a, NextHopOf);
    LastOfSnoc(attrs, a, OriginOf);
    LastOfSnoc(attrs, a, MedOf);
    LastOfSnoc(attrs, a, LocalPrefOf);
    LastOfSnoc(attrs, a, AggregatorOf);
    LastOfSnoc(attrs, a, CommunitiesOf);
    CollectSnoc(attrs, a, CommunityStringsOf);
    CollectSnoc(attrs, a, ExtendedCommunitiesOf);
    CollectSnoc(attrs, a, LargeCommunitiesOf);
    CollectSnoc(attrs, a, AsPathOf);
  }

  /** A path with a single attribute: the initial record after one step of the attribute loop. */
  lemma AttributesReadSingle(path: Path, a: Attribute, parseIP: string -> IP)
    ensures AttributesRead(path, [a], parseIP) == ApplyAttribute(InitialUpdate(path), a, parseIP)
  {
    AttributesReadSnoc(path, [], a, parseIP);
    assert [] + [a] == [a];
  }

  /** The base NLRI: one prefix when the field decodes as an address prefix, none otherwise. */
  function BaseNlri(nlri: Nlri, parseIP: string -> IP): (r: seq<Prefix>)
    ensures |r| <= 1
    ensures r != [] <==> nlri.IPAddressPrefix?
    ensures r != [] ==> r[0].prefixLength == nlri.prefixLen % 0x100 && r[0].prefix == parseIP(nlri.prefix)
  {
    match nlri
    case IPAddressPrefix(prefixLen, prefix) => [Prefix(Uint8Of(prefixLen), parseIP(prefix))]
    case OtherNlri => []
  }

  /** The complete record the decoding step builds for `path`. */
  function DecodedUpdate(path: Path, parseIP: string -> IP): BGPUpdateMessage
  {
    AttributesRead(path, path.pattrs, parseIP).(
      nlri := BaseNlri(path.nlri, parseIP),
      rpkiValidationState := RpkiStateName(ValidationState(path)))
  }

  /** The inner loop over a communities attribute: appends the `"high:low"` string of each value, in order. */
  method AppendCommunityStrings(strings: seq<string>, cs: seq<uint32>) returns (r: seq<string>)
    ensures r == strings + FormatAll(cs)
  {
    r := strings;
    var j := 0;
    while j < |cs|
      invariant 0 <= j <= |cs|
      invariant r == strings + FormatAll(cs[..j])
    {
      r := r + [FormatCommunity(cs[j])];
      assert cs[..j + 1][..j] == cs[..j];
      j := j + 1;
    }
    assert cs[..j] == cs;
  }

  /** The inner loop over an extended-communities attribute: appends the value of each non-nil entry, in order. */
  method AppendExtendedCommunities(values: seq<seq<byte>>, entries: seq<Option<seq<byte>>>) returns (r: seq<seq<byte>>)
    ensures r == values + PresentValues(entries)
  {
    r := values;
    var j := 0;
    while j < |entries|
      invariant 0 <= j <= |entries|
      invariant r == values + PresentValues(entries[..j])
    {
      if entries[j].Some? {
        r := r + [entries[j].value];
      }
      assert entries[..j + 1][..j] == entries[..j];
      j := j + 1;
    }
    assert entries[..j] == entries;
  }

  /** The inner loop over a large-communities attribute: appends each community as a triple, in order. */
  method AppendLargeCommunities(triples: seq<LargeCommunityTriple>, large: seq<LargeCommunity>) returns (r: seq<LargeCommunityTriple>)
    ensures r == triples + Triples(large)
  {
    r := triples;
    var j := 0;
    while j < |large|
      invariant 0 <= j <= |large|
      invariant r == triples + Triples(large[..j])
    {
      var c := large[j];
      r := r + [(c.globalAdmin, c.localData1, c.localData2)];
      assert large[..j + 1][..j] == large[..j];
      j := j + 1;
    }
    assert large[..j] == large;
  }

  /** The inner loop over an AS_PATH attribute: appends the number list of each segment, in order. */
  method AppendSegments(path: seq<seq<uint32>>, segments: seq<AsSegment>) returns (r: seq<seq<uint32>>)
    ensures r == path + SegmentNumbers(segments)
  {
    r := path;
    var j := 0;
    while j < |segments|
      invariant 0 <= j <= |segments|
      invariant r == path + SegmentNumbers(segments[..j])
    {
      r := r + [segments[j].numbers];
      assert segments[..j + 1][..j] == segments[..j];
      j := j + 1;
    }
    assert segments[..j] == segments;
  }

  /** The attribute loop: reads every attribute of `path` into `update`, in order. */
  method ReadAttributes(path: Path, parseIP: string -> IP, initial: BGPUpdateMessage) returns (update: BGPUpdateMessage)
    requires initial == InitialUpdate(path)
    ensures update == AttributesRead(path, path.pattrs, parseIP)
  {
    update := initial;
    var attrs := path.pattrs;
    var i := 0;
    while i < |attrs|
      invariant 0 <= i <= |attrs|
      invariant update == AttributesRead(path, attrs[..i], parseIP)
    {
      var attr := attrs[i];
      assert attrs[..i + 1] == attrs[..i] + [attr];
      AttributesReadSnoc(path, attrs[..i], attr, parseIP);
      match attr {
        case NextHopAttr(nh) =>
          update := update.(nextHop := parseIP(nh));
        case OriginAttr(origin) =>
          var u8 := Uint8Of(origin);
          update := update.(origin := Some(u8));
        case MultiExitDiscAttr(med) =>
          update := update.(med := Some(med));
        case LocalPrefAttr(lp) =>
          update := update.(localPref := Some(lp));
        case AggregatorAttr(asn, address) =>
          update := update.(aggregatorAS := Some(asn), aggregatorAddress := parseIP(address));
        case CommunitiesAttr(cs) =>
          update := update.(communities := cs);
          var strings := AppendCommunityStrings(update.communityStrings, cs);
          update := update.(communityStrings := strings);
        case ExtendedCommunitiesAttr(entries) =>
          var values := AppendExtendedCommunities(update.extendedCommunities, entries);
          update := update.(extendedCommunities := values);
        case LargeCommunitiesAttr(large) =>
          var triples := AppendLargeCommunities(update.largeCommunities, large);
          update := update.(largeCommunities := triples);
        case AsPathAttr(segments) =>
          var asPath := AppendSegments(update.asPath, segments);
          update := update.(asPath := asPath);
        case Unknown(_) =>
      }
      i := i + 1;
    }
    assert attrs[..i] == attrs;
  }

  /** The body of the watch callback for one path, without the JSON logging. */
  method BuildUpdate(path: Path, parseIP: string -> IP) returns (update: BGPUpdateMessage)
    ensures update == DecodedUpdate(path, parseIP)
  {
    update := BGPUpdateMessage(
      withdrawnRoutes := [],
      origin := None,
      asPath := [],
      nextHop := [],
      med := None,
      localPref := None,
      atomicAggregate := false,
      aggregatorAS := None,
      aggregatorAddress := [],
      communities := [],
      communityStrings := [],
      extendedCommunities := [],
      largeCommunities := [],
      rpkiValidationState := None,
      mpReachNLRI := EmptyMPReach,
      mpUnreachNLRI := EmptyMPUnreach,
      nlri := [],
      isWithdraw := false,
      fromPeer := "",
      timestamp := 0);
    update := update.(fromPeer := path.neighborIp);
    update := update.(timestamp := if path.age.Some? then path.age.value else 0);
    update := update.(isWithdraw := path.isWithdraw);

    update := ReadAttributes(path, parseIP, update);


    // The base reachability field, when it decodes as an address prefix.
    match path.nlri {
      case IPAddressPrefix(prefixLen, prefix) =>
        update := update.(nlri := update.nlri + [Prefix(Uint8Of(prefixLen), parseIP(prefix))]);
      case OtherNlri =>
    }

    // The origin-validation code, named when it is one of the three known codes.
    var state := if path.validation.Some? then path.validation.value.state else 0;
    if state == RpkiValid {
      update := update.(rpkiValidationState := Some("valid"));
    } else if state == RpkiInvalid {
      update := update.(rpkiValidationState := Some("invalid"));
    } else if state == RpkiNotFound {
      update := update.(rpkiValidationState := Some("not-found"));
    }
  }
}
