# kuma-migrator: a verified model of its document conversions

kuma-migrator rewrites Kuma 2.x policies, routes, roles and Dataplanes into current 2.x or 3.0 form. Its promise is
that the rewritten documents select, permit and configure what the old ones did, that whatever could not be rewritten
is reported, and that nothing a 3.0 control plane rejects reaches the apply tree. This project models the conversion
code of `pkg/migrator` and proves those promises, or, where the code does not keep one, states exactly when it does.

Loops of the program are methods proved against specification functions; objects with state (`confMapper`, the
gateway index, the OpenTelemetry walk, the Dataplane being fixed, the per-file report) are classes. Iteration over a Go
map is an arbitrary choice of the next key, so every result holds for every iteration order. Each theorem is a lemma
about the specification functions the methods are proved equal to.

| file | part of the program |
|---|---|
| `ServiceTag.dfy` | `name_namespace_svc_port` tags and their decoders |
| `Targeting.dfy`, `RefMeaning.dfy` | tag selectors and subsets to `targetRef`, and what a converted ref selects |
| `LegacySelectors.dfy`, `LegacyPolicies.dfy` | legacy policies to Mesh* policies, and who is selected before and after |
| `FixedPoint.dfy` | detection, the subset and rules passes, what their refs select, re-running on one's own output |
| `LabelRefs.dfy` | references by name become references by labels; producer policies stay producers |
| `Conversions.dfy` | which documents a conversion returns, scenario by scenario and pass by pass |
| `Paths.dfy`, `ConfMapper.dfy`, `CircuitBreaker.dfy`, `Timeouts.dfy` | moving configuration leaves by dotted path, with accounting |
| `AccessRoles.dfy` | AccessRole and AccessAudit rules, where an empty list means everything |
| `OtelBackends.dfy` | inline OpenTelemetry endpoints become references to generated backends |
| `Passthrough.dfy` | filter-chain collisions of MeshPassthrough matches |
| `DataplaneTags.dfy` | inbound and gateway tags become Dataplane labels; MeshService tag selectors |
| `Gateways.dfy`, `ReferenceGrants.dfy` | the cross-document gateway index, parentRefs, listener names, placement, grants |
| `ApplyTree.dfy`, `ApplyOrder.dfy` | what is written where, and in which order it is applied |
| `Text.dfy`, `Json.dfy`, `TagKeys.dfy`, `Sorting.dfy` | strings and numerals, parsed documents, tag keys, the insertion sort over keys |

Where the obvious reading is false of the code, the model keeps the code, and says exactly when it holds:

- A port-less gateway tag round-trips if and only if it does not contain `_svc_`; with the namespace `svc` it does,
  although the name has no underscore (`ServiceTag.GatewayRoundTrip`, `ServiceTag.GatewayNamespaceSvc`).
- A `kuma.io/service: '*'` selector becomes the whole mesh, which is what it selected if and only if it has no further
  tag (`LegacySelectors.StarExact`).
- A service tag loses its port: the ref for one port of a service also selects the proxies of the others
  (`LegacySelectors.OtherPortIsSelected`), and a free-form Universal name also the Kubernetes service of that name
  (`LegacySelectors.FreeFormNameIsShared`). A converted selector selects what it matched if and only if, among the
  proxies it means, none has another service tag (`LegacySelectors.MatchedIsSameTag`); what it selects otherwise is
  stated by `LegacySelectors.SelectorExact`. A selector that names a service loses nothing more if and only if it is
  lossless (`LegacySelectors.ExactOnlyIfLossless`).
- A selector with tags that are no labels selects exactly the proxies that match the rest of it
  (`LegacySelectors.SelectorMeans`); the tags it loses are named in the warnings, except next to a `*`
  (`LegacySelectors.SelectorLossWarned`).
- With both service keys in a selector the iteration order of a map decides the ref. Both orders agree if and only if the
  service tag decodes to the name given, in the namespace given if it encodes one (`LegacySelectors.TagOrdersAgree`).
- A conversion to `rules[]` reaches every client; that is what the sources said if and only if there are none or one of
  them is a wildcard (`LegacyPolicies.RulesReachEveryClient`). Each source of a rate limit is warned about.
- On 2.x a converted ref is converted once more by a second run if and only if the name it carries is an encoded name
  again, which no DNS name is; on 3.0 never (`FixedPoint.ConvertIdempotent`, `FixedPoint.TwiceEncodedIsNested`).
- After a rules pass a second pass is needed if and only if a ref outside `from[]` still has an old form
  (`FixedPoint.RulesPassLeavesRefs`).
- Rules that a policy already had survive if and only if its `from[]` brings none (`FixedPoint.BodiesSurvive`).
- A gRPC timeout is lost without a word if and only if the http timeout of the same name is present, even as null, and
  says something else (`Timeouts.TimeoutLosesExactly`, `Timeouts.NullHttpShadows`).
- A leaf of a conf is lost without a word if and only if its name, split at the dots, spells a place that moved while
  the leaf itself is elsewhere; that takes a dot in a key (`ConfMapper.Conservation`, `ConfMapper.DottedKeyVanishes`).
- Generated OpenTelemetry backends of two policies share a name if and only if their index is the same and as much of
  the policies' names was kept alike (`OtelBackends.BackendNamesEqual`, `OtelBackends.NamesCanClash`); exactly then a
  reference of one selects a backend of the other (`OtelBackends.ReferenceAcrossPolicies`). One policy name in two
  namespaces is such a case.
- A MeshGatewayRoute with neither an http nor a tcp section leaves no document in either tree; every other document that
  is not skip-listed leaves one (`Conversions.LeavesADocument`, `Conversions.RouteWithoutSection`).
- An item of a producer policy stays a producer item if and only if it sets no mesh (`LabelRefs.ProducerStaysProducer`).
- Comparing two idle timeouts that are both lists or both maps panics (`Timeouts.ConvertTimeoutConf`).
- A MeshService selector keeps its meaning if and only if every reserved tag was already a match label
  (`DataplaneTags.SelectorPreserved`).
- Listener names are distinct if and only if no numbered name is another listener's base name
  (`Gateways.ListenerNamesDistinct`, `Gateways.HyphenatedProtocolClashes`).

"Carries" below is the assumption under which a tag selector can be replaced by labels at all: for the keys the selector
mentions, the labels of a proxy (of its Dataplane at the top level, of its MeshService elsewhere) carry its label-worthy
tags and the service its service tag decodes to. It is asked only where the converted ref reads labels: not of wildcards,
of tag selectors that 2.x keeps, of rules, of proxies that do not match, or for more than one of the selectors a proxy
matches; and for a lossless selector it is exactly what selection takes (`LegacySelectors.CoveredOnlyIfCarried`).
"Mirrored", for exactness, also asks that these labels add nothing to the tags. All other tags and labels are free. Both
hold of Kubernetes proxies whose app label is the Service's name (top level) or whose Service repeats the pod labels asked
about (`LegacySelectors.ServiceProxyCarries`), and of Universal proxies whose labels name their service and repeat the
inbound tags (`LegacySelectors.UniversalProxyCarries`).

## Model

| member | source | states |
|---|---|---|
| `ServiceTag.ParseInvertsEncode` | pkg/migrator/convert.go:48-67 | parsing `name_ns_svc_port` gives back name and namespace for every name, however many markers it contains |
| `ServiceTag.ParseFreeForm` | pkg/migrator/convert.go:48-67 | a tag without the marker, and what precedes the marker without an underscore, is a name without a namespace |
| `ServiceTag.DecodeInvertsEncode` | pkg/migrator/v3_dataplane.go:181-195 | decoding inverts encoding if and only if name and namespace are not empty and the port is 1..65535 |
| `ServiceTag.DecodeReencodes` | pkg/migrator/v3_dataplane.go:181-195 | every successful decode re-encodes to its input, up to the spelling of the port |
| `ServiceTag.GatewayRoundTrip` | pkg/migrator/gatewayroute.go:683-702 | the port-less form round-trips if and only if the tag does not contain `_svc_` |
| `ServiceTag.GatewayFreeForm` | pkg/migrator/gatewayroute.go:683-702 | a tag that follows neither form names nothing, one without a namespace only the gateway |
| `ServiceTag.GatewayNamespaceSvc` | pkg/migrator/gateway.go:83-91 | the namespace `svc` is an input for which it does not |
| `Targeting.SelectorLabelsFromTags` | pkg/migrator/convert.go:330-349 | in any tag order: exactly the tags that may become labels are kept, one warning lists all others |
| `Targeting.BuildLabels` | pkg/migrator/convert.go:268-297 | labels and warnings of a service: name key by level, namespace, zone, kept tags |
| `Targeting.PartitionTags` | pkg/migrator/convert.go:163-178 | whatever the iteration order, one of the two service keys decides and the other tags are exact |
| `Targeting.MakeServiceRef` | pkg/migrator/convert.go:228-260 | when a decoded service becomes labels and when a name and namespace |
| `Targeting.ConvertTargetRef` | pkg/migrator/convert.go:122-260 | the result is one of the two the possible last visits allow, for every branch |
| `Targeting.ConvertTargetRefForTarget` | pkg/migrator/convert.go:102-120 | on 3.0 a subset that survives is an error, unless it is a tagless top-level ref, which is the mesh |
| `Targeting.ConvertSelectorForTarget` | pkg/migrator/convert.go:375-394 | empty and `*` selectors are the mesh, tag selectors stay subsets on 2.x, the rest is converted |
| `Targeting.FromSubsetRefV2` | pkg/migrator/convert.go:411-423 | only a `*` service tag is removed from the source's tags |
| `Targeting.FromRefForTarget` | pkg/migrator/convert.go:431-445 | 2.x permissions and faults keep a subset; everything else is converted |
| `RefMeaning.DroppedMeans` | pkg/migrator/convert.go:318-349 | the tags that are no labels: the keys of `kuma.io` and of every domain below it, five excepted |
| `RefMeaning.ConvertedStandsFor` | pkg/migrator/convert.go:122-260 | for any ref, policy namespace, level, target and tag order, the converted ref selects exactly what the original asks for: the decoded name; the namespace the tag encodes, else the one its namespace tag gives, else the policy's; the zone and every tag that can be a label. A half-migrated name keeps its sectionName; a ref with nothing to convert is the same |
| `RefMeaning.ConversionFails` | pkg/migrator/convert.go:102-120 | a conversion fails exactly on 3.0 for a subset without a service tag: always outside the top level, there when it has tags and none can be a label |
| `RefMeaning.LossIsWarned` | pkg/migrator/convert.go:268-349 | a subset that becomes labels loses exactly the tags the warnings name, and no warning is empty; the app label is announced as a guess exactly for a service at the top level, with the name that was written |
| `LegacySelectors.SelectorCovers` | pkg/migrator/convert.go:375-394 | a proxy that matched the selector is selected by the converted ref, on either target and level; where the ref reads labels, if the proxy carries what the selector asks about |
| `LegacySelectors.CoveredOnlyIfCarried` | pkg/migrator/convert.go:268-349 | of the proxies that match a lossless selector whose ref reads labels, the ref selects exactly those that carry them |
| `LegacySelectors.SelectorExact` | pkg/migrator/convert.go:375-394 | on every mirrored proxy, Kubernetes or Universal, the ref of a lossless selector (by one service key or both) selects exactly what the selector asks for with its service tags read as services; wildcards and the subsets 2.x keeps are exact on every proxy |
| `LegacySelectors.SelectorMeans` | pkg/migrator/convert.go:375-394 | for every selector, lossy ones included, the ref selects exactly the mirrored proxies that match what of the selector a label can express; everyone only for no tags or a `*` service |
| `LegacySelectors.MeshOnlyForEveryone` | pkg/migrator/convert.go:375-394 | a selector becomes the whole mesh if and only if it is empty or a service key that decides is `*` |
| `LegacySelectors.SelectorFails` | pkg/migrator/convert.go:375-394 | a selector has no equivalent exactly on 3.0 without a service key: always outside the top level, there when none of its tags can be a label |
| `LegacySelectors.SelectorLossWarned` | pkg/migrator/convert.go:330-349 | except next to a `*`, exactly the tags a selector loses are named in the warnings |
| `LegacySelectors.ExactOnlyIfLossless` | pkg/migrator/convert.go:122-260 | a selector that names a service is exact on every mirrored proxy in every tag order if and only if it has no dropped key, no key only the control plane sets, no empty zone or namespace, no other name or namespace for its service and, with both service keys, the namespace its tag encodes; the port aside |
| `LegacySelectors.TagOrdersAgree` | pkg/migrator/convert.go:163-178 | with both service keys, both iteration orders give the same ref if and only if the tag decodes to the name and a namespace it encodes is the one given |
| `LegacySelectors.MatchedIsSameTag` | pkg/migrator/convert.go:48-67 | the legacy selector matched exactly the proxies it means that carry its own service tag |
| `LegacySelectors.PortIsLost` | pkg/migrator/convert.go:48-67 | two ports of one service: meant, but not matched |
| `LegacySelectors.OtherPortIsSelected` | pkg/migrator/convert.go:122-260 | the converted ref of one port selects the Kubernetes proxy of another, which the selector did not match |
| `LegacySelectors.FreeFormNameIsShared` | pkg/migrator/convert.go:48-67 | a Universal name and the Kubernetes service of that name: meant, but not matched |
| `LegacySelectors.ServiceProxyCarries` | pkg/migrator/convert.go:298-349 | a Kubernetes proxy meets the assumptions for every selector, whatever further labels pod, Service and control plane set, when its app label is the Service's name (top level) or the Service repeats the pod labels asked about |
| `LegacySelectors.UniversalProxyCarries` | pkg/migrator/convert.go:42-43 | so does a Universal proxy with a free-form service tag whose labels name the service and repeat its tags |
| `LegacySelectors.FromSubsetExact` | pkg/migrator/convert.go:411-423 | the 2.x `from[]` subset selects exactly the proxies the source matched, extra tags beside `*` included |
| `LegacySelectors.StarExact` | pkg/migrator/convert.go:381-384 | a `*` selector becomes the mesh, and selects exactly what it matched if and only if it has no further tag |
| `LegacySelectors.StarDiscardsExtraTags` | pkg/migrator/convert.go:411-423 | such a selector as `from[]` of a 2.x policy keeps its meaning, where elsewhere it widens |
| `LegacyPolicies.ConvertSelectors` | pkg/migrator/transform.go:424-492 | fails if and only if one selector has no equivalent; otherwise one ref per selector |
| `LegacyPolicies.InexpressibleMeans` | pkg/migrator/convert.go:375-394 | none is inexpressible on 2.x, on 3.0 exactly a selector without a service key outside the top level or without a tag that can be a label |
| `LegacyPolicies.TransformGeneric` | pkg/migrator/transform.go:424-492 | when it fails, and the policies made of the converted sources and destinations |
| `LegacyPolicies.OutboundCoverage` | pkg/migrator/transform.go:424-492 | every legacy (client, server) pair is configured by an output policy when each side carries the labels of one selector it matches, if that ref reads any; for lossless selectors exactly the pairs they mean are, and exactly the legacy pairs when no proxy has another service tag; names distinct |
| `LegacyPolicies.OutboundExactly` | pkg/migrator/transform.go:424-492 | for every list of selectors, lossy ones included: over all pairs of mirrored proxies exactly those are configured whose client the sources pick and whose server the destinations pick |
| `LegacyPolicies.OutputsCounted` | pkg/migrator/transform.go:461-492 | one policy under the old name when every source is for everyone, one per source when one is not; all of the policy's mesh and kind |
| `LegacyPolicies.ConvertSources` | pkg/migrator/transform.go:563-581 | fails if and only if a source has no equivalent; otherwise one `from[]` ref per source |
| `LegacyPolicies.SourcesInexpressibleMean` | pkg/migrator/transform.go:563-581 | only 3.0 refuses a source, exactly one with tags and without a service key |
| `LegacyPolicies.TransformInbound` | pkg/migrator/transform.go:497-606 | exactly when it refuses (no destinations, permissions and non-wildcard faults on 3.0, inexpressible refs), and what it makes otherwise; one warning per source of a rate limit |
| `LegacyPolicies.InboundCoverage` | pkg/migrator/transform.go:497-606 | every legacy pair is configured, the labels of a client being of no matter to rules and 2.x subsets; for 2.x permissions and faults exactly the matched clients on exactly the servers meant, and exactly the legacy pairs when no server has another service tag |
| `LegacyPolicies.InboundExactly` | pkg/migrator/transform.go:497-606 | the same for inbound policies: exactly the servers the destinations pick, and of the clients those the sources matched where 2.x keeps subsets, all of them where there are rules |
| `LegacyPolicies.EveryClientMeant` | pkg/migrator/transform.go:882-895 | sources match every client if and only if there are none or one is a wildcard |
| `LegacyPolicies.RulesReachEveryClient` | pkg/migrator/transform.go:497-606 | the exception: a rule reaches every client of the destinations meant, wildcards included, which is what the sources said if and only if they match every client |
| `LegacyPolicies.WildcardFaultsExact` | pkg/migrator/transform.go:882-895 | 3.0 accepts exactly the fault injections whose sources are all wildcards, and these mean every client |
| `LegacyPolicies.TransformSelectors` | pkg/migrator/transform.go:612-651 | when it fails, and one policy per selector or one for the mesh |
| `LegacyPolicies.SelectorCoverage` | pkg/migrator/transform.go:612-651 | every proxy the selectors matched is configured when it carries the labels of one selector it matches, if that ref reads any; for lossless ones exactly the proxies meant, and exactly the matched ones when none has another service tag |
| `LegacyPolicies.SelectorExactly` | pkg/migrator/transform.go:612-651 | the same for selector policies: exactly the proxies the selectors pick |
| `LegacyPolicies.SplitNamesDistinct` | pkg/migrator/transform.go:461-492 | the names of the policies one legacy policy is split into are pairwise distinct |
| `LegacyPolicies.IndexedNamesDiffer` | pkg/migrator/transform.go:482-491 | two indexes never give one name |
| `FixedPoint.ApplyFromToRules` | pkg/migrator/rulesapi.go:150-217 | `from[]` goes, its bodies become `rules[]` unless there is none |
| `FixedPoint.ConvertToEntries` | pkg/migrator/transform.go:699-719 | fails if and only if some `to[]` ref has no equivalent; otherwise every entry is converted in place |
| `FixedPoint.ConvertFromEntries` | pkg/migrator/transform.go:720-741 | every `from[]` ref is converted where it can be and left alone where not |
| `FixedPoint.TransformSubset` | pkg/migrator/transform.go:667-775 | the whole pass on one document, for some last-visited tag per ref |
| `FixedPoint.SubsetPassStandsFor` | pkg/migrator/transform.go:667-775 | every ref a subset pass leaves, at the top level, in `to[]` and in a kept `from[]`, selects exactly what the one it was made from asks for, in the policy's own namespace |
| `FixedPoint.SubsetPassFails` | pkg/migrator/transform.go:667-719 | a pass fails exactly on 3.0, for a top-level or `to[]` subset without a service tag or, at the top level, without a tag that can be a label |
| `FixedPoint.FromConvertedStandsFor` | pkg/migrator/convert.go:431-445 | of a `from[]` ref: 2.x permissions and faults keep the subset and turn a generated name into exactly its service tag |
| `FixedPoint.FinishSubset` | pkg/migrator/transform.go:743-765 | for rules kinds the document is rewritten and split, for others kept |
| `FixedPoint.RulesAreBodies` | pkg/migrator/rulesapi.go:150-217 | the rules made of `from[]` are its bodies, in order, elements that are no objects left out |
| `FixedPoint.PassthroughMeans` | pkg/migrator/detect.go:85-184 | a document passes through if and only if no ref has a service tag or a generated name, the top-level one is no subset, and a rules kind has no `from[]` |
| `FixedPoint.BodiesSurvive` | pkg/migrator/rulesapi.go:44-217 | no output holds both `rules[]` and `to[]`; every body survives in order; existing rules survive exactly when `from[]` brings none |
| `FixedPoint.RulesPassLeavesRefs` | pkg/migrator/detect.go:139-150 | after a rules pass a second one is needed if and only if the top-level ref or a `to[]` ref still has an old form |
| `FixedPoint.ConvertSettles` | pkg/migrator/convert.go:122-260 | a converted ref that does not carry a name encoded again has no convertible form any more or is unchanged |
| `FixedPoint.ConvertIdempotent` | pkg/migrator/convert.go:122-260 | converting twice is converting once, whatever the two map iterations did, if and only if the converted ref does not carry an encoded name again; it never does on 3.0, nor for DNS names on 2.x |
| `FixedPoint.TwiceEncodedIsNested` | pkg/migrator/convert.go:122-260 | every name encoded twice over is such a 2.x ref: the first pass leaves the inner encoding |
| `FixedPoint.FromIdempotent` | pkg/migrator/convert.go:431-445 | converting a `from[]` ref twice is converting it once: on 3.0 for all names, on 2.x for DNS names |
| `FixedPoint.RefsIdempotent` | pkg/migrator/transform.go:667-775 | the same for all refs of a document |
| `FixedPoint.SubsetPassFinishes` | pkg/migrator/transform.go:667-775 | every output of a subset pass is a fixed point of detection and transformation: on 3.0 for all names, on 2.x for DNS names |
| `FixedPoint.FinishedStays` | pkg/migrator/detect.go:85-184 | a finished document is returned as it is by every later pass |
| `FixedPoint.TwoPassesFinish` | pkg/migrator/detect.go:85-184 | one pass finishes unless it was a rules pass; after two, every document is stable for every iteration order: on 3.0 for all names, on 2.x for DNS names |
| `FixedPoint.ConversionShrinks` | pkg/migrator/convert.go:122-260 | without any assumption on names, a conversion that changes a ref makes a measure of it smaller |
| `FixedPoint.PassShrinks` | pkg/migrator/transform.go:667-775 | so does every pass that changes a document |
| `FixedPoint.RunsAreBounded` | pkg/migrator/detect.go:85-184 | every chain of changing passes is no longer than the measure of its first document |
| `LabelRefs.FindConflicts` | pkg/migrator/v3_policy.go:423-436 | exactly the wanted labels that are set to something else |
| `LabelRefs.WriteLabels` | pkg/migrator/v3_policy.go:438-445 | the wanted labels are added, the others stay |
| `LabelRefs.FixRefToLabels` | pkg/migrator/v3_policy.go:380-460 | changed if and only if the ref is rewritable and does not contradict itself |
| `LabelRefs.RewriteKeepsSelection` | pkg/migrator/v3_policy.go:380-460 | over any labelled resource, the labels select exactly what name, namespace, mesh and zone selected |
| `LabelRefs.FixRefKeepsRest` | pkg/migrator/v3_policy.go:438-448 | a rewritten ref keeps its kind, its sectionName and all else, and the labels it had; exactly name, namespace and mesh are gone |
| `LabelRefs.PinKeepsRest` | pkg/migrator/v3_policy.go:230-288 | pinning adds the zone to labels without one, and changes nothing else |
| `LabelRefs.FixPolicyKeepsRest` | pkg/migrator/v3_policy.go:125-288 | so does every ref of a whole policy; the policy's own labels and namespace and its list of items stay |
| `LabelRefs.PolicyKeepsSelection` | pkg/migrator/v3_policy.go:125-288 | in a whole policy an item selects by labels exactly what it selected by name, and in a producer policy with a known zone, when it has none of its own, what of that is in this zone |
| `LabelRefs.TopKeepsSelection` | pkg/migrator/v3_policy.go:125-176 | the top-level ref selects exactly what it selected by name |
| `LabelRefs.RealResourcesRewritten` | pkg/migrator/v3_policy.go:380-460 | a ref of a real resource by name, namespace or mesh is always rewritten, unless it contradicts its labels |
| `LabelRefs.ConflictSelectsNothing` | pkg/migrator/v3_policy.go:423-436 | a conflicting ref is untouched, and selected nothing |
| `LabelRefs.FixRefIdempotent` | pkg/migrator/v3_policy.go:380-460 | rewriting twice is rewriting once |
| `LabelRefs.PinProducerZone` | pkg/migrator/v3_policy.go:230-288 | adds the zone to each item's labels exactly for producer policies; reports a change if and only if there is one |
| `LabelRefs.OnlyProducersPinned` | pkg/migrator/v3_policy.go:196-288 | only policies of an application namespace with a known zone are pinned whose recorded role is producer, or that record none and select only services and routes of that namespace |
| `LabelRefs.FixRealResourceTargetRefs` | pkg/migrator/v3_policy.go:125-176 | every ref of the policy rewritten, then pinned; reports a change if and only if there is one |
| `LabelRefs.FixPolicyIdempotent` | pkg/migrator/v3_policy.go:125-288 | rewriting and pinning a whole policy twice is doing it once |
| `LabelRefs.StillNamed` | pkg/migrator/v3_policy.go:125-176 | a ref of the rewritten policy carries name or namespace if and only if a named one was left alone |
| `LabelRefs.LeftAloneMeans` | pkg/migrator/v3_policy.go:380-436 | a named ref is left alone if and only if it names a Dataplane or contradicts its labels |
| `LabelRefs.ProducerStaysProducer` | pkg/migrator/v3_policy.go:196-288 | in a producer policy of an application namespace with a known zone, an item has the three-label producer form after the rewrite if and only if it sets no mesh |
| `ConfMapper.Mapper.Lookup` | pkg/migrator/legacyconf.go:71-84 | the loop reads the value at the dotted path |
| `ConfMapper.Mapper.Write` | pkg/migrator/legacyconf.go:90-102 | the loop over the segments writes the value at the path and creates the maps on the way |
| `Paths.GetWritten` | pkg/migrator/legacyconf.go:90-102 | below the written path one reads exactly the written value |
| `ConfMapper.Mapper.Apply` | pkg/migrator/legacyconf.go:105-129 | a present, non-null value goes across and is consumed; otherwise nothing changes |
| `ConfMapper.Mapper.IsConsumed` | pkg/migrator/legacyconf.go:169-180 | the loop decides whether the path or what it cuts off at the last dots is consumed |
| `ConfMapper.Mapper.Unmapped` | pkg/migrator/legacyconf.go:133-166 | a sorted list that names each leaf with an unconsumed name once, and nothing else, whatever the keys are |
| `ConfMapper.PlainReports` | pkg/migrator/legacyconf.go:133-166 | without dots in the keys it has no repetition and is exactly the paths left over |
| `ConfMapper.Normalize` | pkg/migrator/legacyconf.go:213-222 | a percentage stays the same number: an integer if and only if it is whole, a decimal string otherwise; other values are unchanged, and leaves stay leaves |
| `ConfMapper.ConsumedAgrees` | pkg/migrator/legacyconf.go:169-180 | for every string the loop is the segment-wise prefix test on its split |
| `ConfMapper.DottedKeyVanishes` | pkg/migrator/legacyconf.go:133-180 | a family of confs with a dotted key that hides a leaf |
| `ConfMapper.LeftOverMeans` | pkg/migrator/legacyconf.go:105-180 | after any prefix-free table of moves a leaf is left over if and only if no moved source is at or above what its name spells |
| `ConfMapper.CarriedMeans` | pkg/migrator/legacyconf.go:105-129 | a leaf is readable at its renamed path if and only if a move's source is at or above it |
| `ConfMapper.Conservation` | pkg/migrator/legacyconf.go:90-180 | every leaf of any conf is readable at its renamed path or left over, never both; neither if and only if its name hides it, which plain keys never do |
| `ConfMapper.NothingInvented` | pkg/migrator/legacyconf.go:90-129 | every leaf of the result came from a leaf of the input by one of the moves |
| `ConfMapper.ReadBack` | pkg/migrator/legacyconf.go:90-129 | where a move writes, the result holds a leaf exactly when the input held it at the source |
| `ConfMapper.MovedWhole` | pkg/migrator/legacyconf.go:105-129 | a value that moves is at its place after all moves, whole |
| `ConfMapper.NullStaysBehind` | pkg/migrator/legacyconf.go:105-129 | a null or missing value is not moved: its place stays empty and its name is not consumed |
| `Paths.GetElsewhere` | pkg/migrator/legacyconf.go:90-102 | a write changes nothing at paths neither above nor below it |
| `CircuitBreaker.MovesWellFormed` | pkg/migrator/legacyconf.go:277-304 | no source and no destination of the seventeen moves lies above another |
| `CircuitBreaker.OnlyFactorIsPercentage` | pkg/migrator/legacyconf.go:277-304 | only the factor of the standard deviation is treated as a percentage |
| `CircuitBreaker.ConvertCircuitBreakerConf` | pkg/migrator/legacyconf.go:277-304 | the result of the moves in order, and the left-over leaves in the warning, for every conf |
| `CircuitBreaker.CircuitBreakerConservation` | pkg/migrator/legacyconf.go:277-304 | for every conf, a leaf is held by the result at its renamed path, with the same value or as the same percentage, or named in the warning, never both, and neither exactly when hidden by a dot in a key |
| `CircuitBreaker.CircuitBreakerInventsNothing` | pkg/migrator/legacyconf.go:277-304 | and the result holds nothing else |
| `Timeouts.ConvertTimeoutConf` | pkg/migrator/legacyconf.go:230-270 | it panics exactly on two list or two map idle timeouts; otherwise one source decides each of the five fields, an idle conflict is reported exactly when both are set and differ, and the left-over leaves are in the warning |
| `Timeouts.MoveHttpIdle` | pkg/migrator/legacyconf.go:240-252 | the tcp idle timeout wins; a different http one is reported; two lists or two maps panic |
| `Timeouts.ConflictMeans` | pkg/migrator/legacyconf.go:240-252 | the conflict is reported if and only if an http idle timeout is set and the result has another one |
| `Timeouts.MoveGrpc` | pkg/migrator/legacyconf.go:254-266 | a gRPC timeout is always consumed, and written only when the http field is absent |
| `Timeouts.TimeoutLosesExactly` | pkg/migrator/legacyconf.go:230-270 | unless the converter panics, a leaf is neither in the result nor reported if and only if it lies below a gRPC timeout whose http counterpart is present and says something else, or is hidden by a dot in a key |
| `Timeouts.NullHttpShadows` | pkg/migrator/legacyconf.go:255-266 | a null http timeout is such a counterpart |
| `AccessRoles.RewriteTypes` | pkg/migrator/v3_kongmesh.go:241-263 | the rewritten list; a change is reported if and only if the list differs |
| `AccessRoles.RewriteMeans` | pkg/migrator/v3_kongmesh.go:241-263 | the list names exactly the 3.0 meanings of the old types, each once |
| `AccessRoles.SplitQualifier` | pkg/migrator/v3_kongmesh.go:535-556 | which qualifiers of a when entry are legacy, in any order |
| `AccessRoles.ScanQualifiers` | pkg/migrator/v3_kongmesh.go:512-628 | the when list after the scan; a change is reported if and only if there is one |
| `AccessRoles.RewriteRuleTypes` | pkg/migrator/v3_kongmesh.go:319-376 | a rule is dropped exactly when all its types are gone; otherwise its rewritten types |
| `AccessRoles.ScanRules` | pkg/migrator/v3_kongmesh.go:409-488 | the rules after the scan of a role; a change is reported if and only if there is one |
| `AccessRoles.FixRuleGrants` | pkg/migrator/v3_kongmesh.go:319-376 | a kept rule grants exactly what it granted, and no non-empty list became empty |
| `AccessRoles.DroppedGrantsNothing` | pkg/migrator/v3_kongmesh.go:319-376 | a dropped rule granted nothing that 3.0 knows |
| `AccessRoles.RulesInOrder` | pkg/migrator/v3_kongmesh.go:409-488 | the rules left are those not dropped, in order, and all fields but types and when are as they were |
| `AccessRoles.WhenIsCleaned` | pkg/migrator/v3_kongmesh.go:512-628 | if any entry asks for something 3.0 knows, the when list is exactly those entries, in order, without the three ignored qualifiers; otherwise the rule is unchanged |
| `AccessRoles.TypesAreCurrent` | pkg/migrator/v3_kongmesh.go:319-376 | a kept rule lists no type that 3.0 renames or removes |
| `AccessRoles.CurrentRuleStays` | pkg/migrator/v3_kongmesh.go:409-628 | a rule with nothing to rewrite is left as it is |
| `AccessRoles.ScanPreservesGrants` | pkg/migrator/v3_kongmesh.go:409-628 | the rewritten role grants exactly what the old one did; a role whose rules would all go is unchanged and granted nothing |
| `AccessRoles.ScanIdempotent` | pkg/migrator/v3_kongmesh.go:701-745 | scanning a scanned role or audit changes nothing |
| `AccessRoles.KumaV3Settled` | pkg/migrator/v3_kongmesh.go:184-226 | no successor in the tables is itself renamed or removed |
| `OtelBackends.ParsePlain` | pkg/migrator/v3_mesh.go:495-508 | `host:port` of a plain host parses to that host and port |
| `OtelBackends.ParseMeans` | pkg/migrator/v3_mesh.go:495-508 | an endpoint parses to a host and port if and only if it spells them, bracketed or without a colon, has no slash, and the port is 1..65535 |
| `OtelBackends.BaseIsCleanName` | pkg/migrator/v3_mesh.go:512-518 | the base of a generated name is the cleaned policy name without the hyphens at its ends, `policy` when nothing else is left |
| `OtelBackends.CleanRun` | pkg/migrator/v3_mesh.go:512-514 | cleaning lowers what a name may hold and puts one hyphen for each run of other characters |
| `OtelBackends.FrontIsLongest` | pkg/migrator/v3_mesh.go:519-526 | all of the base is kept if it fits, otherwise the longest part that does not end in a hyphen |
| `OtelBackends.ShortNameKept` | pkg/migrator/v3_mesh.go:512-526 | a short name that can be a label is kept, followed by `-otel` or `-otel-` and the number |
| `OtelBackends.BackendNamesDiffer` | pkg/migrator/v3_mesh.go:512-526 | the generated names of one policy are pairwise distinct, whatever was cut off its name |
| `OtelBackends.BackendNamesEqual` | pkg/migrator/v3_mesh.go:512-526 | over all policies, two names are the same if and only if the index is and what was kept of the policies' names |
| `OtelBackends.NamesCanClash` | pkg/migrator/v3_mesh.go:512-526 | two policy names that share every backend name without being cut |
| `OtelBackends.BackendNameIsLabel` | pkg/migrator/v3_mesh.go:512-526 | a generated name has 1 to 63 characters of the label alphabet and alphanumeric ends (section 2.3.4 of RFC 1035) |
| `OtelBackends.Rewriter.Visit` | pkg/migrator/v3_mesh.go:402-427 | one openTelemetry map rewritten; a new backend only for a new endpoint |
| `OtelBackends.Rewriter.Walk` | pkg/migrator/v3_mesh.go:475-492 | in any field order: the rewritten tree, and exactly the endpoints met are added |
| `OtelBackends.RewriteStable` | pkg/migrator/v3_mesh.go:475-492 | backends generated later do not change what is already rewritten |
| `OtelBackends.ConvertInlineEndpoints` | pkg/migrator/v3_mesh.go:375-472 | one backend per convertible endpoint of the document and no other, in order of first appearance, in the policy's mesh and format; other kinds are left alone |
| `OtelBackends.MeaningPreserved` | pkg/migrator/v3_mesh.go:375-472 | at every place, a rewritten reference selects exactly one of the policy's backends, with the original host and port; anything unparseable is left in place |
| `OtelBackends.NothingElseChanges` | pkg/migrator/v3_mesh.go:375-492 | wherever the walk goes the document has the same nodes before and after, and no others |
| `OtelBackends.BackendsLiveWithPolicy` | pkg/migrator/v3_mesh.go:528-557 | a backend is in its policy's mesh and format and in the system namespace; no two of a policy share a name |
| `OtelBackends.ReferenceAcrossPolicies` | pkg/migrator/v3_mesh.go:375-472 | among the backends of any other policy it selects the one at the same index exactly when the kept parts of the names are the same, and no other |
| `Passthrough.CanonicalIsNetwork` | pkg/migrator/v3_scan.go:274-279 | masking is idempotent, and two CIDRs are masked alike if and only if family, prefix length and the bits of the prefix are the same (section 3.1 of RFC 4632) |
| `Passthrough.KeyTextExact` | pkg/migrator/v3_scan.go:233-272 | two keys are the same string if and only if class, port, network, family and SNI are the same |
| `Passthrough.ChainMeans` | pkg/migrator/v3_scan.go:233-272 | two matches get one chain if and only if they are valid, on one port, both tls, both tcp or mysql, or both neither, and on the same network or both domains, with tls the same one; owners are equal there if and only if protocol and spelling are, HTTP domains of any name |
| `Passthrough.FindCollisions` | pkg/migrator/v3_scan.go:177-215 | exactly the matches that differ from the first owner of their chain are warned about, each once, in order |
| `Passthrough.OnePassIsPairwise` | pkg/migrator/v3_scan.go:177-230 | no warning if and only if all matches that share a chain are compatible, pair by pair |
| `DataplaneTags.MergeTagsIntoLabels` | pkg/migrator/v3_dataplane.go:134-152 | the merged labels, and exactly which tags moved, which are reserved and which conflict, in order |
| `DataplaneTags.MergeGrows` | pkg/migrator/v3_dataplane.go:134-152 | no label is overwritten, every other tag is a label afterwards, with its value unless there is a conflict; merging again changes nothing |
| `DataplaneTags.MergeReports` | pkg/migrator/v3_dataplane.go:125-152 | moved are exactly the new labels, conflicting those that disagree afterwards, reserved those under the two prefixes; every other tag was a label already |
| `DataplaneTags.Dataplane.FixInboundProtocol` | pkg/migrator/v3_dataplane.go:253-289 | the inbounds after the protocol step |
| `DataplaneTags.Dataplane.FixInboundTags` | pkg/migrator/v3_dataplane.go:298-355 | inbounds and shared labels after the tag step |
| `DataplaneTags.Dataplane.FixGatewayMarking` | pkg/migrator/v3_dataplane.go:396-465 | labels and gateway after the gateway step |
| `DataplaneTags.Dataplane.FixDataplane` | pkg/migrator/v3_dataplane.go:35-63 | the three steps in order |
| `DataplaneTags.LabelsOnlyGrow` | pkg/migrator/v3_dataplane.go:298-355 | labels only grow over any number of inbounds |
| `DataplaneTags.TagsMove` | pkg/migrator/v3_dataplane.go:298-465 | an inbound loses its tags if and only if every tag that can be a label is a final label of the same value, also after the gateway step |
| `DataplaneTags.FinalLabelsAre` | pkg/migrator/v3_dataplane.go:35-465 | exactly the labels a Dataplane ends with: its own, then the tags of its inbounds in order, then those of its gateway, the first to name a key giving the value and none under a reserved prefix; without the two gateway markers |
| `DataplaneTags.ProtocolFromTag` | pkg/migrator/v3_dataplane.go:253-289 | an unset protocol becomes the tag's value, a set one stays, through the whole run |
| `DataplaneTags.FixIdempotent` | pkg/migrator/v3_dataplane.go:35-63 | a second run changes nothing |
| `DataplaneTags.FixMeshServiceDataplaneTags` | pkg/migrator/v3_scan.go:76-131 | the selector after the step, an existing matchLabels map that a conflict leaves half merged included; changed if and only if the tags are gone |
| `DataplaneTags.SelectorConverts` | pkg/migrator/v3_scan.go:76-131 | the tags go if and only if no reserved key but three is among them and none conflicts; what an unconverted selector is left with |
| `DataplaneTags.SelectorPreserved` | pkg/migrator/v3_scan.go:76-131 | the selector matches what it matched before if and only if a reserved tag without a label or a conflict stopped the step, or every reserved tag was already a match label |
| `DataplaneTags.NamespaceTagIsLost` | pkg/migrator/v3_scan.go:81-82 | a concrete selector that afterwards matches labels of other namespaces, which it did not before |
| `Gateways.GatewayListenerNames` | pkg/migrator/gateway.go:792-805 | the names, numbered from the second use of a base name |
| `Gateways.ListenerNamesDistinct` | pkg/migrator/gateway.go:783-805 | names are pairwise distinct if and only if no numbered name is the base name of a listener |
| `Gateways.HyphenFreeDistinct` | pkg/migrator/gateway.go:783-805 | in particular when no protocol contains a hyphen |
| `Gateways.HyphenatedProtocolClashes` | pkg/migrator/gateway.go:783-805 | three listeners of which two get one name otherwise |
| `Gateways.GatewayRefIndex.Add` | pkg/migrator/gateway.go:135-177 | the index represents the documents added so far: sorted, duplicate-free, exact |
| `Gateways.ServiceTagsMean` | pkg/migrator/gateway.go:646-668 | a gateway's tags are the service tags of its selectors and its own, without empty ones and `*` |
| `Gateways.DeclaresMeans` | pkg/migrator/gateway.go:83-177 | an instance stands for its namespace under its service tag or, without one, the tag generated from name and namespace; a gateway under each of its tags |
| `Gateways.LookupsIgnoreOrder` | pkg/migrator/gateway.go:135-208 | lookups do not depend on document order when gateway names are distinct |
| `Gateways.GatewayNamespace` | pkg/migrator/gateway.go:195-208 | the loop collects all candidates |
| `Gateways.CandidatesAre` | pkg/migrator/gateway.go:135-208 | the candidates are the sorted namespaces of the instances that share a tag with the gateway, else its own; the least is used, if there is one |
| `Gateways.ListenerSections` | pkg/migrator/gatewayroute.go:583-607 | the listeners that carry every extra tag |
| `Gateways.RefsToGateway` | pkg/migrator/gatewayroute.go:535-564 | the parentRefs to one gateway |
| `Gateways.RefsToMatched` | pkg/migrator/gatewayroute.go:516-564 | the parentRefs of one selector, the namespaces used, and whether all were resolved |
| `Gateways.ParentRefsFromSelectors` | pkg/migrator/gatewayroute.go:493-570 | all parentRefs, and the one namespace every resolved gateway shares, if there is one |
| `Gateways.RefsNameEmittedGateways` | pkg/migrator/gatewayroute.go:493-570 | an index-resolved selector refers exactly to the gateways of its tag, each agreeing with the emitted Gateway |
| `Gateways.UnresolvedRefs` | pkg/migrator/gatewayroute.go:609-635 | a selector whose tag no document carries gets one ref with the name and namespace its tag encodes, else the tag itself, and a placeholder without a tag |
| `Gateways.GuessedSectionMeans` | pkg/migrator/gatewayroute.go:22-35 | its section is the port tag, else the only tag there is when that holds a hyphen |
| `Gateways.AllRefsAre` | pkg/migrator/gatewayroute.go:493-570 | the parentRefs are those of the selectors, in order |
| `Gateways.GatewayRefsAgree` | pkg/migrator/gateway.go:613-635 | a ref has the emitted name and namespace; sections are exactly the emitted names of listeners with all extra tags, and the whole gateway is referred to exactly without extra tags or such listeners |
| `Gateways.PlaceRoute` | pkg/migrator/gatewayroute.go:658-678 | where the route goes, and its refs without redundant namespaces |
| `Gateways.PlacementKeepsParents` | pkg/migrator/gatewayroute.go:658-678 | placing the route drops every redundant namespace and never changes what a parentRef resolves to |
| `ReferenceGrants.GroupRefs` | pkg/migrator/gatewayroute.go:385-410 | exactly the cross-namespace pairs of backendRefs and mirrors, grouped |
| `ReferenceGrants.PointsAtMeans` | pkg/migrator/gatewayroute.go:385-410 | a pair is one if and only if a backendRef of a rule, or the backendRef of a requestMirror filter, names that service in that namespace, other than the route's |
| `ReferenceGrants.ReferenceGrantsForRoute` | pkg/migrator/gatewayroute.go:385-459 | the grants permit exactly those pairs; one grant per namespace, sorted, none empty |
| `ReferenceGrants.RuleOrderIsIrrelevant` | pkg/migrator/gatewayroute.go:385-459 | the grants of two rule lists with the same rules, in any order and repeated, are the same list |
| `ApplyTree.ToKindReasons` | pkg/migrator/v3_policy.go:508-559 | a reason if and only if an item has a kind 3.0 does not take there |
| `ApplyTree.UnconvertedReasons` | pkg/migrator/rejected.go:191-242 | a reason if and only if a removed field is still there: tagged outbounds, dataplaneTags, flat data sources |
| `ApplyTree.RejectionReasons` | pkg/migrator/rejected.go:117-178 | a reason if and only if the document is one 3.0 rejects |
| `ApplyTree.RejectedByTarget` | pkg/migrator/rejected.go:70-96 | exactly the rejected documents of a batch, none on 2.x |
| `ApplyTree.FileReport.ProcessFile` | pkg/migrator/migrator.go:527-716 | both lists exactly as routed; every written document is in exactly one of them; the error flag exact |
| `ApplyTree.AppliedExactly` | pkg/migrator/migrator.go:527-575 | a document is in the apply tree if and only if it is a result of a successful conversion and, on 3.0, not rejected and not of a removed kind (unless another result of its batch is rejected) |
| `ApplyTree.ManualExactly` | pkg/migrator/migrator.go:527-575 | and in the manual tree if and only if it did not convert, is a default gateway timeout on 3.0, or is a result that 3.0 rejects or removes |
| `ApplyTree.ErrorsAreHeld` | pkg/migrator/migrator.go:527-579 | a document counts as an error exactly for what a human must look at: it did not convert, or a result is rejected |
| `ApplyTree.RoutedInOrder` | pkg/migrator/migrator.go:527-575 | every result is written as often as it was produced, in its place |
| `ApplyTree.ApplyTreeAccepted` | pkg/migrator/migrator.go:527-575 | over any mix of success, partial rejection and failure, no rejected document is in the apply tree |
| `ApplyTree.ApplyTreeIsCurrent` | pkg/migrator/rejected.go:117-242 | no policy in the apply tree has a `to[]` or an item of a kind that 3.0 does not take there, none is for gateways only, and no removed field is left |
| `ApplyTree.CurrentPolicyAccepted` | pkg/migrator/rejected.go:117-178 | conversely a policy that selects by labels, with kinds 3.0 takes, not for gateways only and without a removed `from[]`, is not rejected |
| `ApplyTree.RemovedRouted` | pkg/migrator/migrator.go:552-574 | the routing lets a document of a removed kind through only in a batch with a rejected one |
| `ApplyTree.ApplyTreeSelectsByLabels` | pkg/migrator/rejected.go:117-178 | no checked policy in the apply tree names a label-selected resource or a Dataplane, and no permission or fault keeps `from[]` |
| `ApplyTree.HeldBackForNaming` | pkg/migrator/rejected.go:140-176 | after the rewrite a policy is held back for naming something if and only if the rewrite left a named ref alone |
| `Conversions.DetectionAgrees` | pkg/migrator/detect.go:85-184 | on a Mesh* policy document detection is the one the passes are proved for |
| `Conversions.OtherDetections` | pkg/migrator/detect.go:85-184 | which documents are legacy, gateway resources, meshes, external services or skipped, by kind and legacy lists |
| `Conversions.SuccessorsAgree` | pkg/migrator/convert.go:10-46 | a legacy policy becomes the kind that access roles rename its type to |
| `Conversions.TransformedUniform` | pkg/migrator/transform.go:83-175 | whatever a scenario's transform returns, removed kinds are not mixed with others |
| `Conversions.OtelUniform` | pkg/migrator/v3_mesh.go:375-472 | generated backends do not mix them either |
| `Conversions.PanicUniform` | pkg/migrator/v3_policy.go:635-727 | nor do the companions of health checks |
| `Conversions.RemovedNotRejected` | pkg/migrator/rejected.go:117-178 | a generated document of a removed kind has no other reason to be rejected |
| `Conversions.NoRemovedKindApplied` | pkg/migrator/migrator.go:527-575 | over any files and any outcomes the conversions can have, no document of a removed kind is in the apply tree |
| `Conversions.LeavesADocument` | pkg/migrator/migrator.go:507-579 | a document that is not skip-listed leaves none in either tree if and only if it is a Kubernetes route without a section, converted |
| `Conversions.RouteWithoutSection` | pkg/migrator/gatewayroute.go:164-179 | such a route converts to nothing |
| `Conversions.UnconvertedIsManual` | pkg/migrator/migrator.go:566-574 | a removed kind that nothing converts comes back as it is and goes to the manual tree |
| `ApplyOrder.BeforeTotal` | pkg/migrator/report.go:1403-1417 | the comparator is irreflexive, asymmetric and total on distinct directories |
| `ApplyOrder.BeforeTransitive` | pkg/migrator/report.go:1403-1417 | and transitive |
| `ApplyOrder.GroupOutputs` | pkg/migrator/report.go:1349-1396 | each directory with output once, with the paths produced there in order, and which rewrite an existing object |
| `ApplyOrder.SortDirs` | pkg/migrator/report.go:1403-1417 | the sorted list is ordered and a permutation |
| `ApplyOrder.CollectApplyDirs` | pkg/migrator/report.go:1334-1420 | the directories in order, their files and their replaced files exact |
| `ApplyOrder.ListedAsProduced` | pkg/migrator/report.go:1349-1396 | a path is listed in its directory as often as it was produced, and nowhere else |
| `ApplyOrder.ProducedFrom` | pkg/migrator/report.go:1349-1396 | the paths produced are those of the reports, each as often as they say |
| `ApplyOrder.RelDirIs` | pkg/migrator/report.go:1349-1362 | the directory of a path is what precedes its last slash |
| `ApplyOrder.SubfolderIs` | pkg/migrator/report.go:1358-1363 | the subfolder is the last segment of the directory |
| `ApplyOrder.BackendsFirst` | pkg/migrator/report.go:1335-1345 | nothing of the same context precedes the backends |
| `ApplyOrder.ContextsInOrder` | pkg/migrator/report.go:1403-1436 | global and standalone contexts come first, then zones, then the rest, output without a context last; a context's directories stand together |
| `ApplyOrder.SubfoldersInOrder` | pkg/migrator/report.go:1335-1346 | within a context the subfolders come in the documented order, mesh last |
| `ApplyOrder.SplitMesh` | pkg/migrator/report.go:910-921 | the checklist is a permutation in which no mesh directory precedes another one |
| `ApplyOrder.OfMeshKeepsOrder` | pkg/migrator/report.go:910-921 | either half of the checklist is still in order |
| `ApplyOrder.WhereSplits` | pkg/migrator/report.go:1221-1231 | the replaced and the applied files are together all files, each in the right half |
| `ApplyOrder.ApplyDirCommands` | pkg/migrator/report.go:1212-1235 | the commands of one directory, for either tool |
| `ApplyOrder.CommandsAre` | pkg/migrator/report.go:1212-1235 | each file that rewrites an existing object is replaced and each other one applied, as often as it is listed, and nothing else |
| `Sorting.SortedKeys` | pkg/migrator/rulesapi.go:279-291 | the hand-written insertion sort gives exactly the keys, strictly sorted |

## Left out

- Warning prose, Markdown rendering and upgrade advice: only whether a warning is emitted and what it names.
- Parsing: YAML, regular expressions, IP addresses and CIDRs arrive parsed; how a network prints is a parameter with two stated properties.
- Update in place: nested maps and lists are values, so aliasing between the document and its copies is not captured; the fields of the modelled objects are updated.
- Tag and label values are compared as printed strings; numbers and booleans of different Go types are not told apart.
- `kuma.io/service: '*'` is read as any service, as documented; `*` on other tags is an ordinary value.
- Further targetRef keys and name validation, which only adds warnings.
- `OtelBackends.BackendNameIsLabel`: does not cover indexes of more than fifty decimal digits, which no Go int reaches.
- `LabelRefs.ProducerStaysProducer`: does not cover policies without a known zone or of a system namespace, for which the documented rule asks for nothing.
- `CircuitBreaker.ConvertCircuitBreakerConf`: does not write the seventeen moves as seventeen calls; they are a table walked in order.
- `DataplaneTags.Dataplane.FixDataplane`: does not model the outbound, reachable-service and backend steps, which only rewrite refs, nor the universal-format gateway path.
- `Conversions.NoRemovedKindApplied`: takes bodies as arbitrary; that the deprecation scan keeps a document's kind and adds no proxyTypes is part of what a conversion means there.
- `LegacySelectors.ExactOnlyIfLossless`: does not cover selectors with an underscore in the namespace, which no Kubernetes namespace has.
- `ApplyTree.FileReport.ProcessFile`: does not model directories and files that cannot be written, which set the error flag and end the loop.
- `ApplyOrder.CollectApplyDirs`: does not model tool metadata, absolute paths and file names on disk.
- Lower-casing is modelled over ASCII.
- The panic-threshold values, MeshFaultInjection `from[]` folding, the retry, health-check, rate-limit, fault-injection and proxy-template converters: easier uses of the same mapper.
- The legacy dispatcher, mesh label, skip list and server-set identity fields: inputs or fixed tables.
- OPA policy bodies, warn-only scans, on-disk overwrites, and the extractor, readiness, connection and command packages.
- The 2.x branches of the role scan, which only advise.
