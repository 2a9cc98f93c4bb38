# bgpdash: the per-path update decoder

bgpdash watches the adj-RIB-in of an embedded gobgp speaker. For every path
the speaker reports, it builds one `BGPUpdateMessage` and logs it as JSON. This
project models and proves that per-path decoding step. It is the body of the
watch callback in `MonitorPrefixes`, lifted out as `BgpEngine.BuildUpdate`.
The step does four things:

- It starts a fresh record: peer, age in seconds and the withdraw flag are
  copied from the path; every pointer field is nil and every list empty.
- It reads the path attributes in order:
  - next hop, origin (truncated to `uint8`), MED, local preference and the
    aggregator pair are overwritten, so the last occurrence wins;
  - the community value list is replaced by each communities attribute, while
    the `"high:low"` strings (RFC 1997) accumulate across all of them;
  - extended communities (non-nil entries only), large communities (as triples,
    section 3 of RFC 8092) and AS_PATH segments are appended in order;
  - any other attribute kind is ignored.
- It appends at most one base NLRI prefix, with its length truncated to `uint8`.
- It names the origin-validation code: 0, 1 and 2 give "valid", "not-found"
  and "invalid" (section 2 of RFC 8097). Any other code leaves the field absent.

Modules, one per source concern:

- `MachineInts`: Go's fixed-width integers as ranges, and the `uint8(x)`
  truncation.
- `Wrappers`: `Option`, standing for Go's pointer fields. `None` is nil, which
  is distinct from `Some(0)`.
- `GobgpApi`: the messages the callback receives. A protobuf `Any` attribute is
  a closed datatype with one constructor per known kind plus `Unknown`, so
  at most one branch of the attribute loop applies to each attribute.
- `BgpUpdateMessage`: the record. Fixed widths are carried by the types: every
  prefix entry has a `uint8` length, and every large community is a triple of
  `uint32`. Only `MPReach` has a next hop; `MPUnreach` has AFI, SAFI and
  prefixes only.
- `CommunityCodec`: the `"%d:%d"` rendering of a community and a parser that
  inverts it.
- `BgpEngine`: the imperative decoder, with each method proved equal to a
  function:
  - `BuildUpdate` is proved equal to `DecodedUpdate`, a field-by-field
    description of the whole record;
  - `ReadAttributes` is proved equal to `AttributesRead`, the attribute part
    of that record. In it, each scalar field is the last contribution of its
    kind (`LastOf`) and each list is the concatenation of all contributions
    (`Collect`);
  - the four inner loops extend the list they are given by, respectively,
    `FormatAll` of the community values, `PresentValues` of the
    extended-community entries, `Triples` of the large communities and
    `SegmentNumbers` of the AS_PATH segments.
- `BgpEngineProperties`: what the record then satisfies, stated over all
  inputs.

`net.ParseIP` is the parameter `parseIP: string -> IP`. `IP` is a byte
sequence; the empty sequence stands for both the nil and the empty address.

Behaviour of the code that a reader may not expect:

- A path without a validation message reads as code 0 through the nil-safe
  getter, so it is recorded as "valid", not absent (`RpkiStateOfPath`).
- `WithdrawnRoutes` is never filled, even for a withdrawal; only `IsWithdraw`
  is set (`MetadataAndUntouchedFields`).
- With at most one communities attribute, `Communities` and `CommunityStrings`
  have the same length and correspond index by index
  (`SingleCommunitiesCorrespond`). When an earlier communities attribute is
  non-empty they diverge: [1] then [2] gives values [2] but strings
  ["0:1", "0:2"] (`RepeatedCommunitiesDiverge`).
- The origin value is not checked against IGP/EGP/INCOMPLETE
  (`OriginNotValidated`).

## Model

| member | source | states |
|---|---|---|
| BgpEngine.BuildUpdate | pkg/bgp_engine.go:119-236 | the per-path body builds exactly the field-by-field record `DecodedUpdate`: metadata from the path, attributes read in order, base NLRI, RPKI name |
| BgpEngine.ReadAttributes | pkg/bgp_engine.go:165-211 | the attribute loop turns the fresh record into `AttributesRead` of the whole attribute list; the invariant is that the first `i` attributes have been read |
| BgpEngine.AppendCommunityStrings | pkg/bgp_engine.go:187-191 | the inner loop appends the rendering of every community value, in input order, to the strings already there |
| BgpEngine.AppendExtendedCommunities | pkg/bgp_engine.go:194-198 | the inner loop appends the value of every non-nil entry, in order, and skips nil entries |
| BgpEngine.AppendLargeCommunities | pkg/bgp_engine.go:201-203 | the inner loop appends one (global admin, local data 1, local data 2) triple per large community, in order |
| BgpEngine.AppendSegments | pkg/bgp_engine.go:207-209 | the inner loop appends each segment's AS-number list unchanged, in segment order |
| BgpEngine.AttributesReadSnoc | pkg/bgp_engine.go:165-211 | reading one more attribute into the specified record is exactly one step of the loop: scalars overwritten, lists extended, unknown kinds ignored |
| BgpEngine.PresentValues | pkg/bgp_engine.go:194-198 | the kept extended-community values form the same set as the values of the non-nil entries; none are dropped iff no entry is nil (order and multiplicity: `PresentValuesIsFilter`) |
| BgpEngine.Triples | pkg/bgp_engine.go:201-203 | one triple per large community, index by index, with the three fields in order |
| BgpEngine.SegmentNumbers | pkg/bgp_engine.go:207-209 | one entry per segment, index by index, each the segment's number list |
| BgpEngine.BaseNlri | pkg/bgp_engine.go:213-223 | at most one prefix; present iff the NLRI decodes as an address prefix; its length is the `uint8` truncation |
| BgpEngine.RpkiStateName | pkg/bgp_engine.go:225-236 | code 0 iff "valid", 1 iff "not-found", 2 iff "invalid", any other code iff absent |
| CommunityCodec.FormatCommunityShape | pkg/bgp_engine.go:188-190 | `FormatCommunity(c)`, the formatter: the string's first `':'` separates the canonical decimal of the high 16 bits (`c >> 16`) from the canonical decimal of the low 16 bits (`c & 0xFFFF`) |
| CommunityCodec.FormatAll | pkg/bgp_engine.go:187-191 | one string per community value, same length, each the `"high:low"` rendering of the value at that index |
| CommunityCodec.DecimalString | pkg/bgp_engine.go:190 | `%d` gives a canonical numeral (no leading zero) that denotes the number |
| CommunityCodec.FormatCommunityRoundTrip | pkg/bgp_engine.go:188-190 | parsing `"high16:low16"` gives the 32-bit community back, so the rendering loses nothing |
| CommunityCodec.ParseCommunityIsInverse | pkg/bgp_engine.go:188-190 | every string the parser accepts is the rendering of the value it parses to |
| CommunityCodec.FormatCommunityInjective | pkg/bgp_engine.go:188-190 | two communities render to the same string iff they are equal |
| CommunityCodec.FormatCommunityExample | pkg/bgp_engine.go:188-190 | 0x0002000A renders as "2:10" |
| BgpUpdateMessage.OriginCodeOf | pkg/bgp_update_message.go:17 | 0, 1 and 2 are IGP, EGP and INCOMPLETE, each iff; any larger value is no documented code |
| BgpEngineProperties.MetadataAndUntouchedFields | pkg/bgp_engine.go:121-162 | peer, withdraw flag and age (0 when the age is nil) come from the path; withdrawn routes, atomic aggregate and both multiprotocol sets keep their zero values |
| BgpEngineProperties.NoAttributesLeaveFieldsAbsent | pkg/bgp_engine.go:126-162 | with no attributes, every attribute field is absent or empty |
| BgpEngineProperties.NextHopLastWins | pkg/bgp_engine.go:166-168 | the next hop is the parse of the last next-hop attribute |
| BgpEngineProperties.OriginLastWins | pkg/bgp_engine.go:169-172 | the origin is the `uint8` truncation of the last origin attribute |
| BgpEngineProperties.MedLastWins | pkg/bgp_engine.go:173-176 | the MED is the last MED attribute's value |
| BgpEngineProperties.LocalPrefLastWins | pkg/bgp_engine.go:177-180 | the local preference is the last local-pref attribute's value |
| BgpEngineProperties.AggregatorLastWins | pkg/bgp_engine.go:181-184 | aggregator AS and address both come from the last aggregator attribute |
| BgpEngineProperties.AggregatorSetTogether | pkg/bgp_engine.go:181-184 | the aggregator AS is absent only with an empty address, and when present both halves come from the same attribute |
| BgpEngineProperties.CommunitiesLastWins | pkg/bgp_engine.go:185-186 | the community value list is the list of the last communities attribute (replaced, not extended) |
| BgpEngineProperties.PresenceFollowsOccurrence | pkg/bgp_update_message.go:17-23 | origin, MED, local-pref and aggregator AS are present iff an attribute of their kind occurs; next hop and communities stay empty without one |
| BgpEngineProperties.ZeroIsNotAbsent | pkg/bgp_update_message.go:17-23 | for the path [MED 0, local-pref 0, origin 0], the three fields are `Some(0)`; the same path without them gives absent (the general fact is `PresenceFollowsOccurrence`) |
| BgpEngineProperties.OnlyOriginEgp | pkg/bgp_engine.go:169-172 | a path with one origin attribute of value 1 records EGP and leaves every other attribute field absent or empty |
| BgpEngineProperties.OriginNotValidated | pkg/bgp_engine.go:169-172 | origin values outside 0-2 are stored unchecked (7 stays 7; 258 truncates to 2) |
| BgpEngineProperties.DecodeSplit | pkg/bgp_engine.go:165-211 | decoding a concatenation concatenates the appended lists and takes each scalar from the second part when it has one |
| BgpEngineProperties.DecodeSplitReplaced | pkg/bgp_engine.go:165-211 | next hop and community values after a concatenation come from the second part iff it holds an attribute of that kind |
| BgpEngineProperties.CommunityStringsRenderAll | pkg/bgp_engine.go:185-192 | the strings render every value of every communities attribute, in order (they accumulate) |
| BgpEngineProperties.SingleCommunitiesCorrespond | pkg/bgp_engine.go:185-192 | with at most one communities attribute, values and strings have equal length and correspond index by index |
| BgpEngineProperties.RepeatedCommunitiesDiverge | pkg/bgp_engine.go:185-192 | two communities attributes [1] and [2] give values [2] but strings ["0:1", "0:2"] |
| BgpEngineProperties.CommunityExample | pkg/bgp_engine.go:185-192 | the community 0x0002000A is recorded with the string "2:10" |
| BgpEngineProperties.AsPathSegmentsPreserved | pkg/bgp_engine.go:205-210 | one AS_PATH attribute gives one entry per segment, each the segment's numbers, in order |
| BgpEngineProperties.AsPathExample | pkg/bgp_engine.go:205-210 | segments [65001, 65002] and [65003] decode to [[65001, 65002], [65003]] |
| BgpEngineProperties.PresentValuesIsFilter | pkg/bgp_engine.go:194-198 | skipping nil entries distributes over concatenation: a nil entry contributes nothing, a non-nil one its value |
| BgpEngineProperties.ExtendedCommunitiesSkipNil | pkg/bgp_engine.go:193-199 | a value is recorded iff it is a non-nil entry of the attribute; nothing is lost iff no entry is nil |
| BgpEngineProperties.LargeCommunitiesAsTriples | pkg/bgp_engine.go:200-204 | one triple per large community, in order, each (global admin, local data 1, local data 2) |
| BgpEngineProperties.UnknownAttributeIgnored | pkg/bgp_engine.go:165-211 | inserting an attribute of an unknown kind at any position gives the same record |
| BgpEngineProperties.BaseNlriAtMostOne | pkg/bgp_engine.go:213-223 | the record holds at most one base prefix, present iff the NLRI is an address prefix, with the truncated length and parsed address |
| BgpEngineProperties.RpkiStateOfPath | pkg/bgp_engine.go:225-236 | "valid" iff the validation is nil or code 0; "not-found" iff 1; "invalid" iff 2; absent iff any other code |

## Left out

- The gobgp server lifecycle (`NewBGPService`, `Start`, `AddNeighbor`, `Stop`) wraps an external server and a goroutine; it holds no decoding logic.
- The watch subscription and callback delivery in `MonitorPrefixes` are concurrency and an external API. Only the per-path body is modelled, and the loop over a table's paths is one `BuildUpdate` per path.
- Protobuf `Any` decoding (`UnmarshalTo` and type-URL matching) is replaced by the closed `Attribute` and `Nlri` datatypes.
- `net.ParseIP` is the parameter `parseIP`; textual address parsing is not modelled.
- The JSON rendering and `log.Printf` output are serialisation and logging I/O.
- Nil and empty slices are the same empty sequence here, so the difference between JSON `null` and `[]` is not modelled.
- A nil path, a nil large-community entry and a nil AS_PATH segment cannot be represented, so the panics the Go code would raise on them are left out. The code dereferences all three without a check; only extended-community entries are nil-checked, and only they are `Option`s here.
- `WithdrawnRoutesLength` and `TotalPathAttributeLength` are declared in the record but never set or read, so they are not fields of the model.
- Configuration loading (pkg/LoadConfig.go) and process bootstrap (cmd/main.go) are file and process I/O.
