/**
 * What the decoding step promises about the record it builds, proved of
 * `DecodedUpdate` (which `BgpEngine.BuildUpdate` is proved to compute).
 */
module BgpEngineProperties {
  import opened Wrappers
  import opened MachineInts
  import opened GobgpApi
  import opened BgpUpdateMessage
  import opened CommunityCodec
  import opened BgpEngine

  // ---------------------------------------------------------------------------
  // Overwritten fields hold the last contribution, appended fields all of them.

  /** `k` is the last position whose attribute contributes to `field`. */
  ghost predicate IsLastOfKind<T>(attrs: seq<Attribute>, k: int, field: Attribute -> Option<T>)
  {
    0 <= k < |attrs| && field(attrs[k]).Some? && forall j :: k < j < |attrs| ==> field(attrs[j]).None?
  }

  lemma {:induction false} LastOfIsLastOccurrence<T>(attrs: seq<Attribute>, k: int, field: Attribute -> Option<T>)
    requires IsLastOfKind(attrs, k, field)
    ensures LastOf(attrs, field) == field(attrs[k])
  {
    if k < |attrs| - 1 {
      var prefix := attrs[..|attrs| - 1];
      assert IsLastOfKind(prefix, k, field);
      LastOfIsLastOccurrence(prefix, k, field);
    }
  }

  /** A field is absent exactly when no attribute contributes to it; when present it comes from the last one that does. */
  lemma LastOfCases<T>(attrs: seq<Attribute>, field: Attribute -> Option<T>)
    ensures LastOf(attrs, field).None? <==> forall k :: 0 <= k < |attrs| ==> field(attrs[k]).None?
    ensures LastOf(attrs, field).Some? ==>
      exists k :: IsLastOfKind(attrs, k, field) && LastOf(attrs, field) == field(attrs[k])
  {
    LastOfAbsent(attrs, field);
    LastOfPresent(attrs, field);
  }

  lemma {:induction false} LastOfAbsent<T>(attrs: seq<Attribute>, field: Attribute -> Option<T>)
    ensures LastOf(attrs, field).None? <==> forall k :: 0 <= k < |attrs| ==> field(attrs[k]).None?
  {
    if attrs != [] {
      var n := |attrs| - 1;
      var prefix := attrs[..n];
      LastOfAbsent(prefix, field);
      assert forall k :: 0 <= k < n ==> attrs[k] == prefix[k];
    }
  }

  lemma {:induction false} LastOfPresent<T>(attrs: seq<Attribute>, field: Attribute -> Option<T>)
    ensures LastOf(attrs, field).Some? ==>
      exists k :: IsLastOfKind(attrs, k, field) && LastOf(attrs, field) == field(attrs[k])
  {
    if attrs != [] {
      var n := |attrs| - 1;
      var prefix := attrs[..n];
      if field(attrs[n]).Some? {
        assert IsLastOfKind(attrs, n, field);
      } else if LastOf(prefix, field).Some? {
        LastOfPresent(prefix, field);
        var k :| IsLastOfKind(prefix, k, field) && LastOf(prefix, field) == field(prefix[k]);
        assert attrs[k] == prefix[k];
        assert IsLastOfKind(attrs, k, field);
      }
    }
  }

  lemma {:induction false} LastOfAppend<T>(s: seq<Attribute>, t: seq<Attribute>, field: Attribute -> Option<T>)
    ensures LastOf(s + t, field) == if LastOf(t, field).Some? then LastOf(t, field) else LastOf(s, field)
  {
    if t == [] {
      assert s + t == s;
    } else {
      var n := |t| - 1;
      var prefix := t[..n];
      assert s + t == (s + prefix) + [t[n]];
      assert t == prefix + [t[n]];
      LastOfSnoc(s + prefix, t[n], field);
      LastOfSnoc(prefix, t[n], field);
      LastOfAppend(s, prefix, field);
    }
  }

  lemma {:induction false} CollectAppend<T>(s: seq<Attribute>, t: seq<Attribute>, field: Attribute -> seq<T>)
    ensures Collect(s + t, field) == Collect(s, field) + Collect(t, field)
  {
    if t == [] {
      assert s + t == s;
    } else {
      var n := |t| - 1;
      var prefix := t[..n];
      assert s + t == (s + prefix) + [t[n]];
      assert t == prefix + [t[n]];
      CollectSnoc(s + prefix, t[n], field);
      CollectSnoc(prefix, t[n], field);
      CollectAppend(s, prefix, field);
    }
  }

  lemma {:induction false} CollectOfNothing<T>(attrs: seq<Attribute>, field: Attribute -> seq<T>)
    requires forall k :: 0 <= k < |attrs| ==> field(attrs[k]) == []
    ensures Collect(attrs, field) == []
  {
    if attrs != [] {
      CollectOfNothing(attrs[..|attrs| - 1], field);
    }
  }

  /** An attribute that contributes nothing to a field can be inserted anywhere without changing it. */
  lemma LastOfInsertIgnored<T>(s: seq<Attribute>, a: Attribute, t: seq<Attribute>, field: Attribute -> Option<T>)
    requires field(a).None?
    ensures LastOf(s + [a] + t, field) == LastOf(s + t, field)
  {
    LastOfAppend(s + [a], t, field);
    LastOfSnoc(s, a, field);
    LastOfAppend(s, t, field);
  }

  lemma CollectInsertIgnored<T>(s: seq<Attribute>, a: Attribute, t: seq<Attribute>, field: Attribute -> seq<T>)
    requires field(a) == []
    ensures Collect(s + [a] + t, field) == Collect(s + t, field)
  {
    CollectAppend(s + [a], t, field);
    CollectSnoc(s, a, field);
    CollectAppend(s, t, field);
  }

  // ---------------------------------------------------------------------------
  // The fresh record.

  /** Metadata comes from the path; the withdrawn routes, both multiprotocol sets and the atomic-aggregate flag are never touched. */
  lemma MetadataAndUntouchedFields(path: Path, parseIP: string -> IP)
    ensures var u := DecodedUpdate(path, parseIP);
      && u.fromPeer == path.neighborIp
      && u.isWithdraw == path.isWithdraw
      && (path.age.Some? ==> u.timestamp == path.age.value)
      && (path.age.None? ==> u.timestamp == 0)
      && u.withdrawnRoutes == []
      && !u.atomicAggregate
      && u.mpReachNLRI == MPReach(0, 0, [], [])
      && u.mpUnreachNLRI == MPUnreach(0, 0, [])
  {
  }

  /** With no attributes every attribute field stays absent or empty. */
  lemma NoAttributesLeaveFieldsAbsent(path: Path, parseIP: string -> IP)
    requires path.pattrs == []
    ensures var u := DecodedUpdate(path, parseIP);
      && u.origin.None? && u.med.None? && u.localPref.None? && u.aggregatorAS.None?
      && u.nextHop == [] && u.aggregatorAddress == []
      && u.asPath == [] && u.communities == [] && u.communityStrings == []
      && u.extendedCommunities == [] && u.largeCommunities == []
  {
  }

  // ---------------------------------------------------------------------------
  // Scalar attributes: the last occurrence wins.

  lemma NextHopLastWins(path: Path, parseIP: string -> IP, k: nat)
    requires k < |path.pattrs| && path.pattrs[k].NextHopAttr?
    requires forall j :: k < j < |path.pattrs| ==> !path.pattrs[j].NextHopAttr?
    ensures DecodedUpdate(path, parseIP).nextHop == parseIP(path.pattrs[k].nextHop)
  {
    assert IsLastOfKind(path.pattrs, k, NextHopOf);
    LastOfIsLastOccurrence(path.pattrs, k, NextHopOf);
  }

  /** The stored origin is the `uint8` truncation of the last origin attribute's value. */
  lemma OriginLastWins(path: Path, parseIP: string -> IP, k: nat)
    requires k < |path.pattrs| && path.pattrs[k].OriginAttr?
    requires forall j :: k < j < |path.pattrs| ==> !path.pattrs[j].OriginAttr?
    ensures DecodedUpdate(path, parseIP).origin == Some(path.pattrs[k].origin % 0x100)
  {
    assert IsLastOfKind(path.pattrs, k, OriginOf);
    LastOfIsLastOccurrence(path.pattrs, k, OriginOf);
  }

  lemma MedLastWins(path: Path, parseIP: string -> IP, k: nat)
    requires k < |path.pattrs| && path.pattrs[k].MultiExitDiscAttr?
    requires forall j :: k < j < |path.pattrs| ==> !path.pattrs[j].MultiExitDiscAttr?
    ensures DecodedUpdate(path, parseIP).med == Some(path.pattrs[k].med)
  {
    assert IsLastOfKind(path.pattrs, k, MedOf);
    LastOfIsLastOccurrence(path.pattrs, k, MedOf);
  }

  lemma LocalPrefLastWins(path: Path, parseIP: string -> IP, k: nat)
    requires k < |path.pattrs| && path.pattrs[k].LocalPrefAttr?
    requires forall j :: k < j < |path.pattrs| ==> !path.pattrs[j].LocalPrefAttr?
    ensures DecodedUpdate(path, parseIP).localPref == Some(path.pattrs[k].localPref)
  {
    assert IsLastOfKind(path.pattrs, k, LocalPrefOf);
    LastOfIsLastOccurrence(path.pattrs, k, LocalPrefOf);
  }

  /** Aggregator AS and address both come from the last aggregator attribute. */
  lemma AggregatorLastWins(path: Path, parseIP: string -> IP, k: nat)
    requires k < |path.pattrs| && path.pattrs[k].AggregatorAttr?
    requires forall j :: k < j < |path.pattrs| ==> !path.pattrs[j].AggregatorAttr?
    ensures var u := DecodedUpdate(path, parseIP);
      u.aggregatorAS == Some(path.pattrs[k].asn) && u.aggregatorAddress == parseIP(path.pattrs[k].address)
  {
    assert IsLastOfKind(path.pattrs, k, AggregatorOf);
    LastOfIsLastOccurrence(path.pattrs, k, AggregatorOf);
  }

  /** The community list is replaced, not extended: it is the list of the last communities attribute. */
  lemma CommunitiesLastWins(path: Path, parseIP: string -> IP, k: nat)
    requires k < |path.pattrs| && path.pattrs[k].CommunitiesAttr?
    requires forall j :: k < j < |path.pattrs| ==> !path.pattrs[j].CommunitiesAttr?
    ensures DecodedUpdate(path, parseIP).communities == path.pattrs[k].communities
  {
    assert IsLastOfKind(path.pattrs, k, CommunitiesOf);
    LastOfIsLastOccurrence(path.pattrs, k, CommunitiesOf);
  }

  /**
   * Absent is not zero: a pointer field is set exactly when some attribute of
   * its kind occurs, whatever value it carries; fields without one stay empty.
   */
  lemma PresenceFollowsOccurrence(path: Path, parseIP: string -> IP)
    ensures var u, attrs := DecodedUpdate(path, parseIP), path.pattrs;
      && (u.origin.Some? <==> exists k :: 0 <= k < |attrs| && attrs[k].OriginAttr?)
      && (u.med.Some? <==> exists k :: 0 <= k < |attrs| && attrs[k].MultiExitDiscAttr?)
      && (u.localPref.Some? <==> exists k :: 0 <= k < |attrs| && attrs[k].LocalPrefAttr?)
      && (u.aggregatorAS.Some? <==> exists k :: 0 <= k < |attrs| && attrs[k].AggregatorAttr?)
      && ((forall k :: 0 <= k < |attrs| ==> !attrs[k].NextHopAttr?) ==> u.nextHop == [])
      && ((forall k :: 0 <= k < |attrs| ==> !attrs[k].CommunitiesAttr?) ==> u.communities == [])
  {
    var attrs := path.pattrs;
    LastOfCases(attrs, OriginOf);
    LastOfCases(attrs, MedOf);
    LastOfCases(attrs, LocalPrefOf);
    LastOfCases(attrs, AggregatorOf);
    LastOfCases(attrs, NextHopOf);
    LastOfCases(attrs, CommunitiesOf);
  }

  /** Aggregator AS and address are set together, from the same attribute. */
  lemma AggregatorSetTogether(path: Path, parseIP: string -> IP)
    ensures var u, attrs := DecodedUpdate(path, parseIP), path.pattrs;
      && (u.aggregatorAS.None? ==> u.aggregatorAddress == [])
      && (u.aggregatorAS.Some? ==>
            exists k :: 0 <= k < |attrs| && attrs[k].AggregatorAttr?
              && u.aggregatorAS == Some(attrs[k].asn) && u.aggregatorAddress == parseIP(attrs[k].address))
  {
    LastOfCases(path.pattrs, AggregatorOf);
  }

  /** An attribute whose value is zero is present: `Some(0)`, not absent. */
  lemma ZeroIsNotAbsent(path: Path, parseIP: string -> IP)
    requires path.pattrs == [MultiExitDiscAttr(0), LocalPrefAttr(0), OriginAttr(0)]
    ensures var u, bare := DecodedUpdate(path, parseIP), DecodedUpdate(path.(pattrs := []), parseIP);
      && u.med == Some(0) && u.localPref == Some(0) && u.origin == Some(0)
      && bare.med.None? && bare.localPref.None? && bare.origin.None?
  {
    var attrs := path.pattrs;
    assert IsLastOfKind(attrs, 0, MedOf);
    LastOfIsLastOccurrence(attrs, 0, MedOf);
    assert IsLastOfKind(attrs, 1, LocalPrefOf);
    LastOfIsLastOccurrence(attrs, 1, LocalPrefOf);
    assert IsLastOfKind(attrs, 2, OriginOf);
    LastOfIsLastOccurrence(attrs, 2, OriginOf);
  }

  // ---------------------------------------------------------------------------
  // Origin codes.

  /** An origin of 1 is EGP, and it is the only thing such a path sets. */
  lemma OnlyOriginEgp(path: Path, parseIP: string -> IP)
    requires path.pattrs == [OriginAttr(1)]
    ensures var u := DecodedUpdate(path, parseIP);
      && u.origin.Some? && OriginCodeOf(u.origin.value) == Some(EGP)
      && u.med.None? && u.localPref.None? && u.aggregatorAS.None?
      && u.nextHop == [] && u.aggregatorAddress == []
      && u.asPath == [] && u.communities == [] && u.communityStrings == []
      && u.extendedCommunities == [] && u.largeCommunities == [] && u.withdrawnRoutes == []
  {
    AttributesReadSingle(path, OriginAttr(1), parseIP);
  }

  /** Nothing checks that the origin is one of the three codes: the truncated value is stored as it is. */
  lemma OriginNotValidated(path: Path, parseIP: string -> IP)
    requires path.pattrs == [OriginAttr(7), OriginAttr(258)]
    ensures var u := DecodedUpdate(path, parseIP);
      && u.origin == Some(2)
      && DecodedUpdate(path.(pattrs := [OriginAttr(7)]), parseIP).origin == Some(7)
      && OriginCodeOf(7).None?
  {
    var attrs := path.pattrs;
    assert IsLastOfKind(attrs, 1, OriginOf);
    LastOfIsLastOccurrence(attrs, 1, OriginOf);
    assert [OriginAttr(7)][..0] == [];
  }

  // ---------------------------------------------------------------------------
  // Lists: contributions accumulate in attribute order.

  /**
   * Decoding a split list of attributes: every appended list is the
   * concatenation of the two halves' lists, and every scalar is the second
   * half's when it has one of that kind and the first half's otherwise.
   */
  lemma DecodeSplit(path: Path, parseIP: string -> IP, s: seq<Attribute>, t: seq<Attribute>)
    requires path.pattrs == s + t
    ensures var u, us, ut := DecodedUpdate(path, parseIP),
                             DecodedUpdate(path.(pattrs := s), parseIP),
                             DecodedUpdate(path.(pattrs := t), parseIP);
      && u.asPath == us.asPath + ut.asPath
      && u.communityStrings == us.communityStrings + ut.communityStrings
      && u.extendedCommunities == us.extendedCommunities + ut.extendedCommunities
      && u.largeCommunities == us.largeCommunities + ut.largeCommunities
      && u.origin == (if ut.origin.Some? then ut.origin else us.origin)
      && u.med == (if ut.med.Some? then ut.med else us.med)
      && u.localPref == (if ut.localPref.Some? then ut.localPref else us.localPref)
      && u.aggregatorAS == (if ut.aggregatorAS.Some? then ut.aggregatorAS else us.aggregatorAS)
      && u.aggregatorAddress == (if ut.aggregatorAS.Some? then ut.aggregatorAddress else us.aggregatorAddress)
  {
    CollectAppend(s, t, AsPathOf);
    CollectAppend(s, t, CommunityStringsOf);
    CollectAppend(s, t, ExtendedCommunitiesOf);
    CollectAppend(s, t, LargeCommunitiesOf);
    LastOfAppend(s, t, OriginOf);
    LastOfAppend(s, t, MedOf);
    LastOfAppend(s, t, LocalPrefOf);
    LastOfAppend(s, t, AggregatorOf);
  }

  /** Next hop and community list after a split: the second half's when it has an attribute of that kind. */
  lemma DecodeSplitReplaced(path: Path, parseIP: string -> IP, s: seq<Attribute>, t: seq<Attribute>)
    requires path.pattrs == s + t
    ensures var u, us, ut := DecodedUpdate(path, parseIP),
                             DecodedUpdate(path.(pattrs := s), parseIP),
                             DecodedUpdate(path.(pattrs := t), parseIP);
      && u.nextHop == (if exists j :: 0 <= j < |t| && t[j].NextHopAttr? then ut.nextHop else us.nextHop)
      && u.communities == (if exists j :: 0 <= j < |t| && t[j].CommunitiesAttr? then ut.communities else us.communities)
  {
    LastOfAppend(s, t, NextHopOf);
    LastOfAppend(s, t, CommunitiesOf);
    LastOfCases(t, NextHopOf);
    LastOfCases(t, CommunitiesOf);
  }

  function CommunityValuesOf(a: Attribute): seq<uint32>
  {
    if a.CommunitiesAttr? then a.communities else []
  }

  /** Every community value of every communities attribute, in order. */
  function AllCommunityValues(attrs: seq<Attribute>): seq<uint32>
  {
    Collect(attrs, CommunityValuesOf)
  }

  lemma {:induction false} FormatAllAppend(a: seq<uint32>, b: seq<uint32>)
    ensures FormatAll(a + b) == FormatAll(a) + FormatAll(b)
  {
  }

  /** The community strings accumulate: one rendering per value of every communities attribute, in order. */
  lemma {:induction false} CommunityStringsRenderAll(path: Path, parseIP: string -> IP)
    ensures DecodedUpdate(path, parseIP).communityStrings == FormatAll(AllCommunityValues(path.pattrs))
  {
    StringsRenderValues(path.pattrs);
  }

  lemma {:induction false} StringsRenderValues(attrs: seq<Attribute>)
    ensures Collect(attrs, CommunityStringsOf) == FormatAll(AllCommunityValues(attrs))
  {
    if attrs != [] {
      var n := |attrs| - 1;
      StringsRenderValues(attrs[..n]);
      FormatAllAppend(Collect(attrs[..n], CommunityValuesOf), CommunityValuesOf(attrs[n]));
    }
  }

  /** No two attributes of the list are both communities attributes. */
  predicate AtMostOneCommunities(attrs: seq<Attribute>)
  {
    forall j, k :: 0 <= j < k < |attrs| ==> !(attrs[j].CommunitiesAttr? && attrs[k].CommunitiesAttr?)
  }

  /** The values of the one communities attribute, if any: the strings render exactly those. */
  lemma {:induction false} SingleCommunitiesRendered(attrs: seq<Attribute>)
    requires AtMostOneCommunities(attrs)
    ensures var last := LastOf(attrs, CommunitiesOf);
      Collect(attrs, CommunityStringsOf) == FormatAll(if last.Some? then last.value else [])
  {
    if attrs != [] {
      var n := |attrs| - 1;
      var prefix := attrs[..n];
      assert AtMostOneCommunities(prefix);
      if attrs[n].CommunitiesAttr? {
        assert forall k :: 0 <= k < n ==> CommunityStringsOf(prefix[k]) == [];
        CollectOfNothing(prefix, CommunityStringsOf);
      } else {
        SingleCommunitiesRendered(prefix);
      }
    }
  }

  /** With at most one communities attribute the two community lists correspond index by index. */
  lemma SingleCommunitiesCorrespond(path: Path, parseIP: string -> IP)
    requires AtMostOneCommunities(path.pattrs)
    ensures var u := DecodedUpdate(path, parseIP);
      && |u.communities| == |u.communityStrings|
      && forall i :: 0 <= i < |u.communities| ==> u.communityStrings[i] == FormatCommunity(u.communities[i])
  {
    SingleCommunitiesRendered(path.pattrs);
  }

  /** A community below 10 is AS 0 with a one-digit value. */
  lemma FormatCommunitySmall(c: uint32)
    requires c < 10
    ensures FormatAll([c]) == ["0:" + [DigitChar(c)]]
  {
    assert High16(c) == 0 && Low16(c) == c;
    assert DigitChar(0) == '0';
    assert DecimalString(0) == "0" && DecimalString(c) == [DigitChar(c)];
    assert FormatCommunity(c) == "0" + ":" + [DigitChar(c)];
    assert "0" + ":" + [DigitChar(c)] == "0:" + [DigitChar(c)];
    assert FormatAll([c]) == [FormatCommunity(c)];
  }

  /** Two communities attributes: the value list holds the second one only, the string list both. */
  lemma RepeatedCommunitiesDiverge(path: Path, parseIP: string -> IP)
    requires path.pattrs == [CommunitiesAttr([1]), CommunitiesAttr([2])]
    ensures var u := DecodedUpdate(path, parseIP);
      u.communities == [2] && u.communityStrings == ["0:1", "0:2"]
  {
    var first, second := CommunitiesAttr([1]), CommunitiesAttr([2]);
    assert path.pattrs == [first] + [second];
    CollectSnoc([first], second, CommunityStringsOf);
    LastOfSnoc([first], second, CommunitiesOf);
    CollectSnoc([], first, CommunityStringsOf);
    assert [] + [first] == [first];
    FormatCommunitySmall(1);
    FormatCommunitySmall(2);
    assert DigitChar(1) == '1' && DigitChar(2) == '2';
    assert "0:" + [DigitChar(1)] == "0:1" && "0:" + [DigitChar(2)] == "0:2";
    assert Collect([first], CommunityStringsOf) == ["0:1"];
    assert Collect(path.pattrs, CommunityStringsOf) == ["0:1"] + ["0:2"];
  }

  /** The community 0x0002000A is recorded as the string "2:10". */
  lemma CommunityExample(path: Path, parseIP: string -> IP)
    requires path.pattrs == [CommunitiesAttr([0x0002000A])]
    ensures var u := DecodedUpdate(path, parseIP);
      u.communities == [0x0002000A] && u.communityStrings == ["2:10"]
  {
    AttributesReadSingle(path, path.pattrs[0], parseIP);
    FormatCommunityExample();
    assert FormatAll([0x0002000A]) == [FormatCommunity(0x0002000A)];
  }

  /** One AS_PATH attribute: one entry per segment, each the segment's numbers unchanged. */
  lemma AsPathSegmentsPreserved(path: Path, parseIP: string -> IP)
    requires |path.pattrs| == 1 && path.pattrs[0].AsPathAttr?
    ensures var u, segments := DecodedUpdate(path, parseIP), path.pattrs[0].segments;
      |u.asPath| == |segments| && forall i :: 0 <= i < |segments| ==> u.asPath[i] == segments[i].numbers
  {
    assert path.pattrs == [path.pattrs[0]];
    AttributesReadSingle(path, path.pattrs[0], parseIP);
  }

  lemma AsPathExample(path: Path, parseIP: string -> IP)
    requires path.pattrs == [AsPathAttr([AsSegment(2, [65001, 65002]), AsSegment(2, [65003])])]
    ensures DecodedUpdate(path, parseIP).asPath == [[65001, 65002], [65003]]
  {
    AsPathSegmentsPreserved(path, parseIP);
  }

  /** Nil entries are dropped and the values of the others kept in order: skipping is a filter. */
  lemma {:induction false} PresentValuesIsFilter(a: seq<Option<seq<byte>>>, b: seq<Option<seq<byte>>>, v: seq<byte>)
    ensures PresentValues(a + b) == PresentValues(a) + PresentValues(b)
    ensures PresentValues([None]) == [] && PresentValues([Some(v)]) == [v]
  {
    if b != [] {
      var n := |b| - 1;
      assert (a + b)[..|a + b| - 1] == a + b[..n];
      PresentValuesIsFilter(a, b[..n], v);
    } else {
      assert a + b == a;
    }
    var none: seq<Option<seq<byte>>>, some: seq<Option<seq<byte>>> := [None], [Some(v)];
    assert none[..0] == [] && some[..0] == [];
  }

  /** One extended-communities attribute: the values of its non-nil entries, and nothing else. */
  lemma ExtendedCommunitiesSkipNil(path: Path, parseIP: string -> IP)
    requires |path.pattrs| == 1 && path.pattrs[0].ExtendedCommunitiesAttr?
    ensures var u, entries := DecodedUpdate(path, parseIP), path.pattrs[0].extCommunities;
      && (forall v :: v in u.extendedCommunities <==> Some(v) in entries)
      && (|u.extendedCommunities| == |entries| <==> forall i :: 0 <= i < |entries| ==> entries[i].Some?)
  {
    assert path.pattrs == [path.pattrs[0]];
    AttributesReadSingle(path, path.pattrs[0], parseIP);
  }

  /** One large-communities attribute: one triple per community, in order. */
  lemma LargeCommunitiesAsTriples(path: Path, parseIP: string -> IP)
    requires |path.pattrs| == 1 && path.pattrs[0].LargeCommunitiesAttr?
    ensures var u, large := DecodedUpdate(path, parseIP), path.pattrs[0].largeCommunities;
      && |u.largeCommunities| == |large|
      && forall i :: 0 <= i < |large| ==>
           u.largeCommunities[i] == (large[i].globalAdmin, large[i].localData1, large[i].localData2)
  {
    assert path.pattrs == [path.pattrs[0]];
    AttributesReadSingle(path, path.pattrs[0], parseIP);
  }

  // ---------------------------------------------------------------------------
  // Unknown attributes.

  /** Inserting an attribute of an unknown kind anywhere yields the same record. */
  lemma UnknownAttributeIgnored(path: Path, parseIP: string -> IP, k: nat, typeUrl: string)
    requires k <= |path.pattrs|
    ensures DecodedUpdate(path.(pattrs := path.pattrs[..k] + [Unknown(typeUrl)] + path.pattrs[k..]), parseIP)
         == DecodedUpdate(path, parseIP)
  {
    var s, t, a := path.pattrs[..k], path.pattrs[k..], Unknown(typeUrl);
    assert s + t == path.pattrs;
    LastOfInsertIgnored(s, a, t, NextHopOf);
    LastOfInsertIgnored(s, a, t, OriginOf);
    LastOfInsertIgnored(s, a, t, MedOf);
    LastOfInsertIgnored(s, a, t, LocalPrefOf);
    LastOfInsertIgnored(s, a, t, AggregatorOf);
    LastOfInsertIgnored(s, a, t, CommunitiesOf);
    CollectInsertIgnored(s, a, t, AsPathOf);
    CollectInsertIgnored(s, a, t, CommunityStringsOf);
    CollectInsertIgnored(s, a, t, ExtendedCommunitiesOf);
    CollectInsertIgnored(s, a, t, LargeCommunitiesOf);
  }

  // ---------------------------------------------------------------------------
  // Base NLRI and RPKI state.

  /** At most one base prefix: present exactly when the NLRI decodes as an address prefix. */
  lemma BaseNlriAtMostOne(path: Path, parseIP: string -> IP)
    ensures var u := DecodedUpdate(path, parseIP);
      && |u.nlri| <= 1
      && (u.nlri != [] <==> path.nlri.IPAddressPrefix?)
      && (path.nlri.IPAddressPrefix? ==>
            u.nlri == [Prefix(path.nlri.prefixLen % 0x100, parseIP(path.nlri.prefix))])
  {
  }

  /** The RPKI table, read through the nil-safe getter: a path without validation reads as code 0, "valid". */
  lemma RpkiStateOfPath(path: Path, parseIP: string -> IP)
    ensures var u, v := DecodedUpdate(path, parseIP), path.validation;
      && (u.rpkiValidationState == Some("valid") <==> v.None? || v.value.state == 0)
      && (u.rpkiValidationState == Some("not-found") <==> v.Some? && v.value.state == 1)
      && (u.rpkiValidationState == Some("invalid") <==> v.Some? && v.value.state == 2)
      && (u.rpkiValidationState.None? <==> v.Some? && v.value.state !in {0, 1, 2})
  {
  }
}
