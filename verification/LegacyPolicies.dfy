/** Legacy policies (sources/destinations/selectors) become Mesh* policies (transform.go). */
module LegacyPolicies {
  import opened Text
  import opened TagKeys
  import opened Targeting
  import opened RefMeaning
  import opened LegacySelectors

  /** A converted conf body; the conversion never looks inside. */
  type Conf = string

  datatype LegacyPolicy = LegacyPolicy(
    kind: string, name: string, mesh: string,
    sources: seq<Tags>, destinations: seq<Tags>, selectors: seq<Tags>)

  datatype Entry = Entry(ref: TargetRef, default: Conf)

  datatype Policy = Policy(
    kind: string, name: string, mesh: string, targetRef: TargetRef,
    to: seq<Entry>, from: seq<Entry>, rules: seq<Conf>, default: Option<Conf>)

  // ---- selector lists --------------------------------------------------------

  /** ref is what sel converts to, under one of the two tag orders. */
  predicate SelectsAs(sel: Tags, topLevel: bool, v3: bool, ref: TargetRef) {
    || (var r := ConvertSelector(sel, "", topLevel, v3, false); r.Ok? && r.value.0 == ref)
    || (var r := ConvertSelector(sel, "", topLevel, v3, true); r.Ok? && r.value.0 == ref)
  }

  predicate AllSelectAs(sels: seq<Tags>, topLevel: bool, v3: bool, refs: seq<TargetRef>) {
    |refs| == |sels| && forall i :: 0 <= i < |sels| ==> SelectsAs(sels[i], topLevel, v3, refs[i])
  }

  /** A selector without an equivalent on the target. */
  predicate Inexpressible(sel: Tags, topLevel: bool, v3: bool) {
    ConvertSelector(sel, "", topLevel, v3, true).Err?
  }

  lemma ErrorIgnoresTagOrder(sel: Tags, topLevel: bool, v3: bool)
    ensures ConvertSelector(sel, "", topLevel, v3, false).Err? == ConvertSelector(sel, "", topLevel, v3, true).Err?
  {
  }

  lemma EveryoneIsMesh(topLevel: bool, v3: bool)
    ensures SelectsAs(map[], topLevel, v3, Bare("Mesh")) && !Inexpressible(map[], topLevel, v3)
  {
  }

  /** Exactly these selectors have no equivalent; none has on 2.x. */
  lemma InexpressibleMeans(sel: Tags, topLevel: bool, v3: bool)
    ensures Inexpressible(sel, topLevel, v3) <==>
              v3 && sel != map[] && !AsksService(sel) && !(topLevel && AsksSomething(sel))
  {
    SelectorFails(sel, topLevel, v3, true);
  }

  method ConvertSelectors(sels: seq<Tags>, topLevel: bool, v3: bool)
    returns (r: Result<seq<TargetRef>, Error>, warnings: seq<Warning>)
    ensures r.Ok? ==> AllSelectAs(sels, topLevel, v3, r.value)
    ensures r.Err? <==> exists i :: 0 <= i < |sels| && Inexpressible(sels[i], topLevel, v3)
  {
    hide ConvertSelector;
    var refs := [];
    warnings := [];
    for i := 0 to |sels|
      invariant AllSelectAs(sels[..i], topLevel, v3, refs)
      invariant forall j :: 0 <= j < i ==> !Inexpressible(sels[j], topLevel, v3)
    {
      ErrorIgnoresTagOrder(sels[i], topLevel, v3);
      var one := ConvertSelectorForTarget(sels[i], "", topLevel, v3);
      if one.Err? {
        assert Inexpressible(sels[i], topLevel, v3);
        return Err(one.error), warnings;
      }
      assert SelectsAs(sels[i], topLevel, v3, one.value.0);
      refs := refs + [one.value.0];
      warnings := warnings + one.value.1;
    }
    assert sels[..|sels|] == sels;
    return Ok(refs), warnings;
  }

  function OrEveryone(sels: seq<Tags>): seq<Tags> {
    if sels == [] then [map[]] else sels
  }

  /** The legacy reading of a selector list: no selectors means everyone. */
  ghost predicate AnyMatches(sels: seq<Tags>, p: Proxy) {
    sels == [] || exists i :: 0 <= i < |sels| && TagsMatch(sels[i], p.tags)
  }

  ghost predicate AnySelects(refs: seq<TargetRef>, p: Proxy) {
    exists i :: 0 <= i < |refs| && Selects(refs[i], p)
  }

  /** No refs stand for the mesh, as no selectors stand for everyone. */
  lemma DefaultsToMesh(sels: seq<Tags>, topLevel: bool, v3: bool, refs: seq<TargetRef>)
    requires AllSelectAs(sels, topLevel, v3, refs)
    ensures AllSelectAs(OrEveryone(sels), topLevel, v3, if refs == [] then [Bare("Mesh")] else refs)
  {
    hide SelectsAs;
    EveryoneIsMesh(topLevel, v3);
  }

  /** The proxy matches a selector whose ref reads no labels, or reads labels that the proxy carries. */
  ghost predicate Reachable(sels: seq<Tags>, topLevel: bool, v3: bool, p: Proxy) {
    sels == [] || exists i :: 0 <= i < |sels| && ReachableBy(sels[i], topLevel, v3, p)
  }

  ghost predicate ReachableBy(sel: Tags, topLevel: bool, v3: bool, p: Proxy) {
    TagsMatch(sel, p.tags) && (NeedsLabels(sel, v3) ==> Carries(sel, p, topLevel))
  }

  /** Whether the proxy carries labels matters only if it matches, and only for one selector that it matches. */
  ghost predicate Carried(sels: seq<Tags>, topLevel: bool, v3: bool, p: Proxy) {
    AnyMatches(sels, p) ==> Reachable(sels, topLevel, v3, p)
  }

  lemma ListCovers(sels: seq<Tags>, topLevel: bool, v3: bool, refs: seq<TargetRef>, p: Proxy)
    requires AllSelectAs(OrEveryone(sels), topLevel, v3, refs)
    requires Carried(sels, topLevel, v3, p) && AnyMatches(sels, p)
    ensures AnySelects(refs, p)
  {
    hide NeedsLabels, Carries, SelectsAs, Selects, TagsMatch;
    var all := OrEveryone(sels);
    if sels == [] { EveryoneReachable(topLevel, v3, p); }
    var i :| 0 <= i < |all| && ReachableBy(all[i], topLevel, v3, p);
    OneCovers(all[i], topLevel, v3, refs[i], p);
  }

  lemma EveryoneReachable(topLevel: bool, v3: bool, p: Proxy)
    ensures ReachableBy(map[], topLevel, v3, p)
  {
  }

  lemma OneCovers(sel: Tags, topLevel: bool, v3: bool, ref: TargetRef, p: Proxy)
    requires SelectsAs(sel, topLevel, v3, ref) && ReachableBy(sel, topLevel, v3, p)
    ensures Selects(ref, p)
  {
    hide NeedsLabels, Carries, Selects, TagsMatch, ConvertSelector;
    var r0, r1 := ConvertSelector(sel, "", topLevel, v3, false), ConvertSelector(sel, "", topLevel, v3, true);
    if r0.Ok? && r0.value.0 == ref { SelectorCovers(sel, topLevel, v3, r0, p); }
    else { SelectorCovers(sel, topLevel, v3, r1, p); }
  }

  /** What the converted selectors ask of a proxy's tags: each service tag read as its service. */
  ghost predicate AnyMeant(sels: seq<Tags>, v3: bool, p: Proxy) {
    sels == [] || exists i :: 0 <= i < |sels| && Meant(sels[i], v3, p.tags)
  }

  ghost predicate Exactable(sels: seq<Tags>, topLevel: bool, v3: bool, p: Proxy) {
    forall i :: 0 <= i < |sels| ==> ExactOn(sels[i], topLevel, v3, p)
  }

  /** The proxy has no other port of a selected service, nor another kind of tag for its name. */
  ghost predicate SameTags(sels: seq<Tags>, v3: bool, p: Proxy) {
    forall i :: 0 <= i < |sels| ==> (!v3 && SERVICE !in sels[i]) || SameTag(sels[i], p.tags)
  }

  lemma ListExact(sels: seq<Tags>, topLevel: bool, v3: bool, refs: seq<TargetRef>, p: Proxy)
    requires AllSelectAs(OrEveryone(sels), topLevel, v3, refs) && Exactable(sels, topLevel, v3, p)
    ensures AnySelects(refs, p) <==> AnyMeant(sels, v3, p)
    ensures SameTags(sels, v3, p) ==> (AnyMeant(sels, v3, p) <==> AnyMatches(sels, p))
  {
    hide SelectsAs, ExactOn, Meant, SameTag, Selects;
    if sels == [] {
      MeshSelects(refs, topLevel, v3, p);
    } else {
      forall i | 0 <= i < |sels| ensures Selects(refs[i], p) <==> Meant(sels[i], v3, p.tags) {
        OneExact(sels[i], topLevel, v3, refs[i], p);
      }
      if AnyMeant(sels, v3, p) {
        var i :| 0 <= i < |sels| && Meant(sels[i], v3, p.tags);
        assert Selects(refs[i], p);
      }
      if SameTags(sels, v3, p) { AllMatched(sels, topLevel, v3, p); }
    }
  }

  lemma AllMatched(sels: seq<Tags>, topLevel: bool, v3: bool, p: Proxy)
    requires Exactable(sels, topLevel, v3, p) && SameTags(sels, v3, p)
    ensures AnyMeant(sels, v3, p) <==> AnyMatches(sels, p)
  {
    hide ExactOn, Meant, SameTag, TagsMatch;
    forall i | 0 <= i < |sels| ensures Meant(sels[i], v3, p.tags) <==> TagsMatch(sels[i], p.tags) {
      MatchedIsSameTag(sels[i], topLevel, v3, p);
    }
    if AnyMeant(sels, v3, p) && sels != [] {
      var i :| 0 <= i < |sels| && Meant(sels[i], v3, p.tags);
      assert TagsMatch(sels[i], p.tags);
    }
    if AnyMatches(sels, p) && sels != [] {
      var i :| 0 <= i < |sels| && TagsMatch(sels[i], p.tags);
      assert Meant(sels[i], v3, p.tags);
    }
  }

  lemma MeshSelects(refs: seq<TargetRef>, topLevel: bool, v3: bool, p: Proxy)
    requires AllSelectAs([map[]], topLevel, v3, refs)
    ensures AnySelects(refs, p)
  {
    assert refs[0] == Bare("Mesh");
    assert Selects(refs[0], p);
  }

  lemma OneExact(sel: Tags, topLevel: bool, v3: bool, ref: TargetRef, p: Proxy)
    requires SelectsAs(sel, topLevel, v3, ref) && ExactOn(sel, topLevel, v3, p)
    ensures Selects(ref, p) <==> Meant(sel, v3, p.tags)
  {
    hide Selects, Meant, ExactOn, ConvertSelector;
    var r0, r1 := ConvertSelector(sel, "", topLevel, v3, false), ConvertSelector(sel, "", topLevel, v3, true);
    if r0.Ok? && r0.value.0 == ref { SelectorExact(sel, topLevel, v3, r0, p); }
    else { SelectorExact(sel, topLevel, v3, r1, p); }
  }

  // ---- whom a list picks, whatever it loses ------------------------------------

  ghost predicate AllMirrored(sels: seq<Tags>, topLevel: bool, v3: bool, p: Proxy) {
    forall i :: 0 <= i < |sels| ==> MirroredFor(sels[i], topLevel, v3, p)
  }

  /** nameLast says, for each selector, which of two service keys decided. */
  ghost predicate AnyPicks(sels: seq<Tags>, topLevel: bool, v3: bool, nameLast: seq<bool>, p: Proxy)
    requires |nameLast| == |sels|
  {
    sels == [] || exists i :: 0 <= i < |sels| && Picks(sels[i], topLevel, v3, nameLast[i], p)
  }

  /** The tag orders that explain the refs of a list. */
  function OrdersOf(sels: seq<Tags>, topLevel: bool, v3: bool, refs: seq<TargetRef>): (nameLast: seq<bool>)
    requires sels != [] ==> |refs| == |sels|
    ensures |nameLast| == |sels|
  {
    seq(|sels|, i requires 0 <= i < |sels| =>
      var r := ConvertSelector(sels[i], "", topLevel, v3, true); r.Ok? && r.value.0 == refs[i])
  }

  lemma OnePicks(sel: Tags, topLevel: bool, v3: bool, ref: TargetRef, p: Proxy)
    requires SelectsAs(sel, topLevel, v3, ref) && MirroredFor(sel, topLevel, v3, p)
    ensures var r := ConvertSelector(sel, "", topLevel, v3, true);
      Selects(ref, p) <==> Picks(sel, topLevel, v3, r.Ok? && r.value.0 == ref, p)
  {
    hide ConvertSelector, Selects, Picks, MirroredFor;
    var r := ConvertSelector(sel, "", topLevel, v3, true);
    SelectorMeans(sel, topLevel, v3, r.Ok? && r.value.0 == ref, p);
  }

  lemma ListPicks(sels: seq<Tags>, topLevel: bool, v3: bool, refs: seq<TargetRef>, p: Proxy)
    requires AllSelectAs(OrEveryone(sels), topLevel, v3, refs) && AllMirrored(sels, topLevel, v3, p)
    ensures AnySelects(refs, p) <==> AnyPicks(sels, topLevel, v3, OrdersOf(sels, topLevel, v3, refs), p)
  {
    hide SelectsAs, Selects, Picks, MirroredFor, ConvertSelector;
    var nameLast := OrdersOf(sels, topLevel, v3, refs);
    if sels == [] {
      MeshSelects(refs, topLevel, v3, p);
    } else {
      forall i | 0 <= i < |sels| ensures Selects(refs[i], p) <==> Picks(sels[i], topLevel, v3, nameLast[i], p) {
        OnePicks(sels[i], topLevel, v3, refs[i], p);
      }
      if AnyPicks(sels, topLevel, v3, nameLast, p) {
        var i :| 0 <= i < |sels| && Picks(sels[i], topLevel, v3, nameLast[i], p);
        assert Selects(refs[i], p);
      }
    }
  }

  // ---- splitting -------------------------------------------------------------

  function IndexedName(name: string, i: nat): string {
    name + "-" + Decimal(i)
  }

  ghost predicate DistinctNames(policies: seq<Policy>) {
    forall i, j :: 0 <= i < j < |policies| ==> policies[i].name != policies[j].name
  }

  lemma IndexedNamesDiffer(name: string, i: nat, j: nat)
    requires i != j
    ensures IndexedName(name, i) != IndexedName(name, j)
  {
    var prefix := name + "-";
    if IndexedName(name, i) == IndexedName(name, j) {
      assert (prefix + Decimal(i))[|prefix|..] == Decimal(i);
      assert (prefix + Decimal(j))[|prefix|..] == Decimal(j);
      DecimalInjective(i, j);
    }
  }

  predicate AllMesh(refs: seq<TargetRef>) {
    forall i :: 0 <= i < |refs| ==> refs[i].kind == "Mesh"
  }

  /** One policy per top-level ref, numbered when there are several; one for all when every ref is the mesh. */
  function Merged(refs: seq<TargetRef>): seq<TargetRef> {
    if AllMesh(refs) then [Bare("Mesh")] else refs
  }

  ghost predicate OnePolicyPer(refs: seq<TargetRef>, p: LegacyPolicy, kind: string, policies: seq<Policy>) {
    && |policies| == |refs|
    && forall i :: 0 <= i < |refs| ==>
         && policies[i].targetRef == refs[i] && policies[i].kind == kind && policies[i].mesh == p.mesh
         && policies[i].name == if |refs| == 1 then p.name else IndexedName(p.name, i)
  }

  lemma SplitNamesDistinct(refs: seq<TargetRef>, p: LegacyPolicy, kind: string, policies: seq<Policy>)
    requires OnePolicyPer(refs, p, kind, policies)
    ensures DistinctNames(policies)
  {
    forall i, j | 0 <= i < j < |policies| ensures policies[i].name != policies[j].name {
      IndexedNamesDiffer(p.name, i, j);
    }
  }

  lemma MergedSelects(refs: seq<TargetRef>, p: Proxy)
    requires refs != []
    ensures AnySelects(Merged(refs), p) <==> AnySelects(refs, p)
  {
    if AllMesh(refs) {
      assert Selects(refs[0], p);
      assert Selects(Merged(refs)[0], p);
    }
  }

  // ---- outbound policies -------------------------------------------------------

  ghost predicate AllCarry(entries: seq<Entry>, refs: seq<TargetRef>, conf: Conf) {
    |entries| == |refs| && forall i :: 0 <= i < |refs| ==> entries[i] == Entry(refs[i], conf)
  }

  function Entries(refs: seq<TargetRef>, conf: Conf): seq<Entry> {
    seq(|refs|, i requires 0 <= i < |refs| => Entry(refs[i], conf))
  }

  /** What transformGenericLegacy must produce from the converted sources and destinations. */
  ghost predicate OutboundConversion(p: LegacyPolicy, kind: string, conf: Conf, v3: bool, out: seq<Policy>) {
    exists sources, destinations :: OutboundResult(p, kind, conf, v3, sources, destinations, out)
  }

  ghost predicate OutboundResult(p: LegacyPolicy, kind: string, conf: Conf, v3: bool, sources: seq<TargetRef>,
                                 destinations: seq<TargetRef>, out: seq<Policy>)
  {
    && AllSelectAs(OrEveryone(p.sources), true, v3, sources)
    && AllSelectAs(OrEveryone(p.destinations), false, v3, destinations)
    && OnePolicyPer(Merged(sources), p, kind, out)
    && forall i :: 0 <= i < |out| ==>
         AllCarry(out[i].to, destinations, conf) && out[i].from == [] && out[i].rules == [] && out[i].default == None
  }

  /** transformGenericLegacy: sources become spec.targetRef, destinations become to[]. */
  method TransformGeneric(p: LegacyPolicy, kind: string, conf: Conf, v3: bool)
    returns (r: Result<seq<Policy>, Error>, warnings: seq<Warning>)
    ensures r.Err? <==>
              || (exists i :: 0 <= i < |p.destinations| && Inexpressible(p.destinations[i], false, v3))
              || (exists i :: 0 <= i < |p.sources| && Inexpressible(p.sources[i], true, v3))
    ensures r.Ok? ==> OutboundConversion(p, kind, conf, v3, r.value)
  {
    hide ConvertSelector, SelectsAs, Inexpressible, AllSelectAs;
    EveryoneIsMesh(false, v3);
    var to, w := ConvertSelectors(OrEveryone(p.destinations), false, v3);
    warnings := w;
    if to.Err? { return Err(to.error), warnings; }
    assert forall i :: 0 <= i < |p.destinations| ==> OrEveryone(p.destinations)[i] == p.destinations[i];
    var top, w' := ConvertSelectors(p.sources, true, v3);
    warnings := warnings + w';
    if top.Err? { return Err(top.error), warnings; }
    DefaultsToMesh(p.sources, true, v3, top.value);
    var refs := if |top.value| == 0 then [Bare("Mesh")] else top.value;
    var entries := Entries(to.value, conf);
    if AllMesh(refs) {
      var one := [Policy(kind, p.name, p.mesh, Bare("Mesh"), entries, [], [], None)];
      assert OutboundResult(p, kind, conf, v3, refs, to.value, one);
      return Ok(one), warnings;
    }
    if |refs| == 1 {
      var one := [Policy(kind, p.name, p.mesh, refs[0], entries, [], [], None)];
      assert OutboundResult(p, kind, conf, v3, refs, to.value, one);
      return Ok(one), warnings;
    }
    var out := [];
    for i := 0 to |refs|
      invariant |out| == i
      invariant forall j :: 0 <= j < i ==>
        out[j] == Policy(kind, IndexedName(p.name, j), p.mesh, refs[j], entries, [], [], None)
    {
      out := out + [Policy(kind, IndexedName(p.name, i), p.mesh, refs[i], entries, [], [], None)];
    }
    assert OutboundResult(p, kind, conf, v3, refs, to.value, out);
    return Ok(out), warnings;
  }

  /** An outbound policy configures conf on the client for traffic to the server. */
  ghost predicate OutboundApplies(out: Policy, conf: Conf, client: Proxy, server: Proxy) {
    && Selects(out.targetRef, client)
    && exists i :: 0 <= i < |out.to| && out.to[i].default == conf && Selects(out.to[i].ref, server)
  }

  ghost predicate SomeOutboundApplies(out: seq<Policy>, conf: Conf, client: Proxy, server: Proxy) {
    exists i :: 0 <= i < |out| && OutboundApplies(out[i], conf, client, server)
  }

  lemma OutboundMeans(p: LegacyPolicy, kind: string, conf: Conf, v3: bool, sources: seq<TargetRef>,
                      destinations: seq<TargetRef>, out: seq<Policy>, client: Proxy, server: Proxy)
    requires OutboundResult(p, kind, conf, v3, sources, destinations, out)
    ensures SomeOutboundApplies(out, conf, client, server)
       <==> AnySelects(sources, client) && AnySelects(destinations, server)
  {
    hide Selects, SelectsAs, Merged, OutboundApplies;
    assert sources != [];
    MergedSelects(sources, client);
    forall i | 0 <= i < |out|
      ensures OutboundApplies(out[i], conf, client, server) <==>
                Selects(Merged(sources)[i], client) && AnySelects(destinations, server)
    {
      OneOutboundMeans(out[i], conf, destinations, client, server);
    }
    if AnySelects(Merged(sources), client) && AnySelects(destinations, server) {
      var i :| 0 <= i < |Merged(sources)| && Selects(Merged(sources)[i], client);
      assert OutboundApplies(out[i], conf, client, server);
    }
  }

  lemma OneOutboundMeans(one: Policy, conf: Conf, destinations: seq<TargetRef>, client: Proxy, server: Proxy)
    requires AllCarry(one.to, destinations, conf)
    ensures OutboundApplies(one, conf, client, server) <==>
              Selects(one.targetRef, client) && AnySelects(destinations, server)
  {
    hide Selects;
    if AnySelects(destinations, server) {
      var j :| 0 <= j < |destinations| && Selects(destinations[j], server);
      assert one.to[j] == Entry(destinations[j], conf);
    }
    if OutboundApplies(one, conf, client, server) {
      var j :| 0 <= j < |one.to| && one.to[j].default == conf && Selects(one.to[j].ref, server);
      assert Selects(destinations[j], server);
    }
  }

  /** Every (client, server) pair the legacy policy configured is configured by an output policy. */
  lemma OutboundCoverage(p: LegacyPolicy, kind: string, conf: Conf, v3: bool, out: seq<Policy>, client: Proxy,
                         server: Proxy)
    requires OutboundConversion(p, kind, conf, v3, out)
    ensures DistinctNames(out)
    ensures Carried(p.sources, true, v3, client) && Carried(p.destinations, false, v3, server) ==>
              (AnyMatches(p.sources, client) && AnyMatches(p.destinations, server) ==>
                 SomeOutboundApplies(out, conf, client, server))
    ensures Exactable(p.sources, true, v3, client) && Exactable(p.destinations, false, v3, server) ==>
              && (SomeOutboundApplies(out, conf, client, server) <==>
                    AnyMeant(p.sources, v3, client) && AnyMeant(p.destinations, v3, server))
              && (SameTags(p.sources, v3, client) && SameTags(p.destinations, v3, server) ==>
                    (SomeOutboundApplies(out, conf, client, server) <==>
                       AnyMatches(p.sources, client) && AnyMatches(p.destinations, server)))
  {
    var sources, destinations :| OutboundResult(p, kind, conf, v3, sources, destinations, out);
    SplitNamesDistinct(Merged(sources), p, kind, out);
    OutboundMeans(p, kind, conf, v3, sources, destinations, out, client, server);
    if Carried(p.sources, true, v3, client) && AnyMatches(p.sources, client) {
      ListCovers(p.sources, true, v3, sources, client);
    }
    if Carried(p.destinations, false, v3, server) && AnyMatches(p.destinations, server) {
      ListCovers(p.destinations, false, v3, destinations, server);
    }
    if Exactable(p.sources, true, v3, client) && Exactable(p.destinations, false, v3, server) {
      ListExact(p.sources, true, v3, sources, client);
      ListExact(p.destinations, false, v3, destinations, server);
    }
  }

  /** A selector for everyone, whichever of its service keys decides; or, with a '*' name, for one of them. */
  predicate ForEveryone(sel: Tags) {
    sel == map[] || Has(sel, SERVICE, "*")
  }

  predicate MaybeForEveryone(sel: Tags) {
    ForEveryone(sel) || Has(sel, SERVICE_NAME, "*")
  }

  lemma MergedCounts(sels: seq<Tags>, v3: bool, refs: seq<TargetRef>)
    requires AllSelectAs(OrEveryone(sels), true, v3, refs)
    ensures (forall i :: 0 <= i < |sels| ==> ForEveryone(sels[i])) ==> |Merged(refs)| == 1
    ensures (exists i :: 0 <= i < |sels| && !MaybeForEveryone(sels[i])) ==> |Merged(refs)| == |sels|
  {
    hide ConvertSelector;
    var all := OrEveryone(sels);
    forall i | 0 <= i < |all|
      ensures ForEveryone(all[i]) ==> refs[i].kind == "Mesh"
      ensures refs[i].kind == "Mesh" ==> MaybeForEveryone(all[i])
    {
      MeshOnlyForEveryone(all[i], true, v3, false);
      MeshOnlyForEveryone(all[i], true, v3, true);
    }
  }

  /** One policy under the old name when every source is for everyone; and one for each source when one is not. */
  lemma OutputsCounted(p: LegacyPolicy, kind: string, conf: Conf, v3: bool, out: seq<Policy>)
    requires OutboundConversion(p, kind, conf, v3, out)
    ensures (forall i :: 0 <= i < |p.sources| ==> ForEveryone(p.sources[i])) ==> |out| == 1 && out[0].name == p.name
    ensures (exists i :: 0 <= i < |p.sources| && !MaybeForEveryone(p.sources[i])) ==> |out| == |p.sources|
    ensures forall i :: 0 <= i < |out| ==> out[i].kind == kind && out[i].mesh == p.mesh
  {
    hide SelectsAs, Merged;
    var sources, destinations :| OutboundResult(p, kind, conf, v3, sources, destinations, out);
    MergedCounts(p.sources, v3, sources);
  }

  /** For all selectors, lossy ones included, and for some deciding keys: over all pairs of mirrored proxies the output
      policies configure exactly those whose client the sources pick and whose server the destinations do. */
  lemma OutboundExactly(p: LegacyPolicy, kind: string, conf: Conf, v3: bool, out: seq<Policy>)
    requires OutboundConversion(p, kind, conf, v3, out)
    ensures exists s, d :: PairsPicked(p, conf, v3, out, s, d)
  {
    hide OutboundResult, AllMirrored, SomeOutboundApplies, AnyPicks, OrdersOf;
    var sources, destinations :| OutboundResult(p, kind, conf, v3, sources, destinations, out);
    assert AllSelectAs(OrEveryone(p.sources), true, v3, sources) &&
        AllSelectAs(OrEveryone(p.destinations), false, v3, destinations) by {
      OutboundRefs(p, kind, conf, v3, sources, destinations, out);
    }
    var s, d := OrdersOf(p.sources, true, v3, sources), OrdersOf(p.destinations, false, v3, destinations);
    forall client, server |
      AllMirrored(p.sources, true, v3, client) && AllMirrored(p.destinations, false, v3, server)
      ensures SomeOutboundApplies(out, conf, client, server) <==>
                AnyPicks(p.sources, true, v3, s, client) && AnyPicks(p.destinations, false, v3, d, server)
    {
      OutboundMeans(p, kind, conf, v3, sources, destinations, out, client, server);
      ListPicks(p.sources, true, v3, sources, client);
      ListPicks(p.destinations, false, v3, destinations, server);
    }
    assert PairsPicked(p, conf, v3, out, s, d);
  }

  lemma OutboundRefs(p: LegacyPolicy, kind: string, conf: Conf, v3: bool, sources: seq<TargetRef>,
                     destinations: seq<TargetRef>, out: seq<Policy>)
    requires OutboundResult(p, kind, conf, v3, sources, destinations, out)
    ensures AllSelectAs(OrEveryone(p.sources), true, v3, sources)
    ensures AllSelectAs(OrEveryone(p.destinations), false, v3, destinations)
  {
  }

  ghost predicate PairsPicked(p: LegacyPolicy, conf: Conf, v3: bool, out: seq<Policy>, s: seq<bool>, d: seq<bool>) {
    && |s| == |p.sources| && |d| == |p.destinations|
    && forall client, server ::
         AllMirrored(p.sources, true, v3, client) && AllMirrored(p.destinations, false, v3, server) ==>
           (SomeOutboundApplies(out, conf, client, server) <==>
              AnyPicks(p.sources, true, v3, s, client) && AnyPicks(p.destinations, false, v3, d, server))
  }

  // ---- inbound policies --------------------------------------------------------

  /** allWildcardSources: every source selects every client. */
  predicate AllWildcard(sources: seq<Tags>) {
    forall i :: 0 <= i < |sources| ==> sources[i] == map[] || sources[i] == map[SERVICE := "*"]
  }

  predicate UsesRules(kind: string, v3: bool) {
    kind == "MeshRateLimit" || (v3 && kind == "MeshFaultInjection")
  }

  function RateLimitWarnings(sources: seq<Tags>): seq<Warning> {
    seq(|sources|, i requires 0 <= i < |sources| => SourceNotPreserved(sources[i]))
  }

  predicate FromConvertsTo(src: Tags, kind: string, v3: bool, ref: TargetRef) {
    if KeepsSubsets(kind, v3) then ref == FromSubset(src) else SelectsAs(src, false, v3, ref)
  }

  /** What transformInboundLegacy must produce: one policy per destination, the sources as from[] or as one rule. */
  ghost predicate InboundConversion(p: LegacyPolicy, kind: string, conf: Conf, v3: bool, out: seq<Policy>) {
    exists sources, destinations :: InboundResult(p, kind, conf, v3, sources, destinations, out)
  }

  ghost predicate InboundResult(p: LegacyPolicy, kind: string, conf: Conf, v3: bool, sources: seq<TargetRef>,
                                destinations: seq<TargetRef>, out: seq<Policy>)
  {
    && OnePolicyPer(destinations, p, kind, out)
    && AllSelectAs(p.destinations, true, v3, destinations)
    && (!UsesRules(kind, v3) ==>
          && |sources| == |OrEveryone(p.sources)|
          && forall i :: 0 <= i < |sources| ==> FromConvertsTo(OrEveryone(p.sources)[i], kind, v3, sources[i]))
    && forall i :: 0 <= i < |out| ==>
         && out[i].to == [] && out[i].default == None
         && (if UsesRules(kind, v3) then out[i].rules == [conf] && out[i].from == []
             else out[i].rules == [] && AllCarry(out[i].from, sources, conf))
  }

  predicate SomeSourceInexpressible(sources: seq<Tags>, kind: string, v3: bool) {
    !KeepsSubsets(kind, v3) && exists i :: 0 <= i < |sources| && Inexpressible(sources[i], false, v3)
  }

  /** Only 3.0 refuses a source, and then one that asks for tags without a service. */
  lemma SourcesInexpressibleMean(sources: seq<Tags>, kind: string, v3: bool)
    ensures SomeSourceInexpressible(sources, kind, v3) <==>
              v3 && exists i :: 0 <= i < |sources| && sources[i] != map[] && !AsksService(sources[i])
  {
    hide Inexpressible;
    forall i | 0 <= i < |sources|
      ensures Inexpressible(sources[i], false, v3) <==> v3 && sources[i] != map[] && !AsksService(sources[i])
    {
      InexpressibleMeans(sources[i], false, v3);
    }
  }

  /** The from[] loop of transformInboundLegacy. */
  method ConvertSources(sources: seq<Tags>, kind: string, v3: bool)
    returns (r: Result<seq<TargetRef>, Error>, warnings: seq<Warning>)
    ensures r.Ok? ==>
              && |r.value| == |sources|
              && forall i :: 0 <= i < |sources| ==> FromConvertsTo(sources[i], kind, v3, r.value[i])
    ensures r.Err? <==> SomeSourceInexpressible(sources, kind, v3)
  {
    hide ConvertSelector, FromSubset;
    var refs := [];
    warnings := [];
    for i := 0 to |sources|
      invariant |refs| == i
      invariant !SomeSourceInexpressible(sources[..i], kind, v3)
      invariant forall j :: 0 <= j < i ==> FromConvertsTo(sources[j], kind, v3, refs[j])
    {
      if !v3 && MeshSubsetFromKind(kind) {
        var ref := FromSubsetRefV2(sources[i]);
        refs := refs + [ref];
        continue;
      }
      ErrorIgnoresTagOrder(sources[i], false, v3);
      var one := ConvertSelectorForTarget(sources[i], "", false, v3);
      if one.Err? {
        assert Inexpressible(sources[i], false, v3);
        return Err(one.error), warnings;
      }
      assert SelectsAs(sources[i], false, v3, one.value.0);
      refs := refs + [one.value.0];
      warnings := warnings + one.value.1;
    }
    return Ok(refs), warnings;
  }

  /** transformInboundLegacy: destinations become spec.targetRef, sources become from[] or are widened to rules[]. */
  method TransformInbound(p: LegacyPolicy, kind: string, conf: Conf, v3: bool)
    returns (r: Result<seq<Policy>, Error>, warnings: seq<Warning>)
    // Widening a permission to the whole mesh is never the answer to malformed or inexpressible input.
    ensures p.destinations == [] ==> r == Err(NoDestinations)
    ensures p.destinations != [] && v3 && kind == "MeshTrafficPermission" ==> r == Err(NeedsClientIdentity)
    ensures p.destinations != [] && v3 && kind == "MeshFaultInjection" && !AllWildcard(p.sources) ==>
              r == Err(NeedsClientIdentity)
    ensures r.Err? <==>
              || p.destinations == []
              || (v3 && kind == "MeshTrafficPermission")
              || (v3 && kind == "MeshFaultInjection" && !AllWildcard(p.sources))
              || (!UsesRules(kind, v3) && SomeSourceInexpressible(p.sources, kind, v3))
              || (exists i :: 0 <= i < |p.destinations| && Inexpressible(p.destinations[i], true, v3))
    ensures r.Ok? ==> InboundConversion(p, kind, conf, v3, r.value)
    ensures r.Ok? && kind == "MeshRateLimit" ==> RateLimitWarnings(p.sources) <= warnings
  {
    hide ConvertSelector, SelectsAs, FromConvertsTo, Inexpressible;
    EveryoneIsMesh(false, v3);
    warnings := [];
    ghost var sources: seq<TargetRef> := [];
    if |p.destinations| == 0 { return Err(NoDestinations), warnings; }
    var useRules := kind == "MeshRateLimit";
    if v3 {
      if kind == "MeshTrafficPermission" { return Err(NeedsClientIdentity), warnings; }
      if kind == "MeshFaultInjection" {
        if !AllWildcard(p.sources) { return Err(NeedsClientIdentity), warnings; }
        useRules := true;
      }
    }
    var from: seq<Entry>, rules: seq<Conf> := [], [];
    if useRules {
      for i := 0 to |p.sources|
        invariant warnings == if kind == "MeshRateLimit" then RateLimitWarnings(p.sources[..i]) else []
      {
        if kind == "MeshRateLimit" {
          warnings := warnings + [SourceNotPreserved(p.sources[i])];
        }
      }
      assert p.sources[..|p.sources|] == p.sources;
      rules := [conf];
    } else {
      var refs, w := ConvertSources(OrEveryone(p.sources), kind, v3);
      if refs.Err? { return Err(refs.error), w; }
      sources, warnings := refs.value, w;
      from := Entries(refs.value, conf);
    }
    var top, w := ConvertSelectors(p.destinations, true, v3);
    warnings := warnings + w;
    if top.Err? { return Err(top.error), warnings; }
    var out := [];
    for i := 0 to |p.destinations|
      invariant |out| == i
      invariant forall j :: 0 <= j < i ==>
        out[j] == Policy(kind, if |p.destinations| > 1 then IndexedName(p.name, j) else p.name, p.mesh,
                         top.value[j], [], from, rules, None)
    {
      var name := if |p.destinations| > 1 then IndexedName(p.name, i) else p.name;
      out := out + [Policy(kind, name, p.mesh, top.value[i], [], from, rules, None)];
    }
    assert InboundResult(p, kind, conf, v3, sources, top.value, out);
    return Ok(out), warnings;
  }

  /** An inbound policy configures conf on the server for traffic from the client; a rule has no client. */
  ghost predicate InboundApplies(out: Policy, conf: Conf, client: Proxy, server: Proxy) {
    && Selects(out.targetRef, server)
    && (|| conf in out.rules
        || exists i :: 0 <= i < |out.from| && out.from[i].default == conf && Selects(out.from[i].ref, client))
  }

  ghost predicate SomeInboundApplies(out: seq<Policy>, conf: Conf, client: Proxy, server: Proxy) {
    exists i :: 0 <= i < |out| && InboundApplies(out[i], conf, client, server)
  }

  lemma InboundMeans(p: LegacyPolicy, kind: string, conf: Conf, v3: bool, sources: seq<TargetRef>,
                     destinations: seq<TargetRef>, out: seq<Policy>, client: Proxy, server: Proxy)
    requires InboundResult(p, kind, conf, v3, sources, destinations, out)
    ensures SomeInboundApplies(out, conf, client, server)
       <==> AnySelects(destinations, server) && (UsesRules(kind, v3) || AnySelects(sources, client))
  {
    hide Selects, FromConvertsTo, AllSelectAs, UsesRules, OrEveryone, InboundApplies;
    forall i | 0 <= i < |out|
      ensures InboundApplies(out[i], conf, client, server) <==>
                Selects(destinations[i], server) && (UsesRules(kind, v3) || AnySelects(sources, client))
    {
      OneInboundMeans(out[i], UsesRules(kind, v3), conf, sources, client, server);
    }
    if AnySelects(destinations, server) && (UsesRules(kind, v3) || AnySelects(sources, client)) {
      var i :| 0 <= i < |destinations| && Selects(destinations[i], server);
      assert InboundApplies(out[i], conf, client, server);
    }
  }

  lemma OneInboundMeans(one: Policy, rules: bool, conf: Conf, sources: seq<TargetRef>, client: Proxy, server: Proxy)
    requires if rules then one.rules == [conf] && one.from == []
              else one.rules == [] && AllCarry(one.from, sources, conf)
    ensures InboundApplies(one, conf, client, server) <==>
              Selects(one.targetRef, server) && (rules || AnySelects(sources, client))
  {
    hide Selects;
    if !rules && AnySelects(sources, client) {
      var j :| 0 <= j < |sources| && Selects(sources[j], client);
      assert one.from[j] == Entry(sources[j], conf);
    }
    if !rules && InboundApplies(one, conf, client, server) {
      var j :| 0 <= j < |one.from| && one.from[j].default == conf && Selects(one.from[j].ref, client);
      assert Selects(sources[j], client);
    }
  }

  lemma SourcesCover(srcs: seq<Tags>, kind: string, v3: bool, refs: seq<TargetRef>, client: Proxy)
    requires |refs| == |OrEveryone(srcs)|
    requires forall i :: 0 <= i < |refs| ==> FromConvertsTo(OrEveryone(srcs)[i], kind, v3, refs[i])
    ensures KeepsSubsets(kind, v3) ==> (AnySelects(refs, client) <==> AnyMatches(srcs, client))
    ensures !KeepsSubsets(kind, v3) && Carried(srcs, false, v3, client) && AnyMatches(srcs, client) ==>
              AnySelects(refs, client)
  {
    hide Carried, SelectsAs;
    var all := OrEveryone(srcs);
    if !KeepsSubsets(kind, v3) {
      if Carried(srcs, false, v3, client) && AnyMatches(srcs, client) {
        ListCovers(srcs, false, v3, refs, client);
      }
      return;
    }
    if AnyMatches(srcs, client) {
      var i :| 0 <= i < |all| && TagsMatch(all[i], client.tags);
      assert FromConvertsTo(all[i], kind, v3, refs[i]);
      FromSubsetExact(all[i], client);
      assert Selects(refs[i], client);
    }
    if AnySelects(refs, client) {
      var i :| 0 <= i < |refs| && Selects(refs[i], client);
      assert FromConvertsTo(all[i], kind, v3, refs[i]);
      FromSubsetExact(all[i], client);
    }
  }

  /** A client's labels are read: not so by rules, nor by the subsets of tags that 2.x keeps. */
  predicate ReadsClientLabels(kind: string, v3: bool) {
    !UsesRules(kind, v3) && !KeepsSubsets(kind, v3)
  }

  /** Inbound coverage; exact on the client side for 2.x permissions and faults whatever its tags and labels are. */
  lemma InboundCoverage(p: LegacyPolicy, kind: string, conf: Conf, v3: bool, out: seq<Policy>, client: Proxy,
                        server: Proxy)
    requires InboundConversion(p, kind, conf, v3, out) && p.destinations != []
    ensures DistinctNames(out)
    ensures Carried(p.destinations, true, v3, server) &&
            (ReadsClientLabels(kind, v3) ==> Carried(p.sources, false, v3, client)) ==>
              (AnyMatches(p.sources, client) && AnyMatches(p.destinations, server) ==>
                 SomeInboundApplies(out, conf, client, server))
    ensures KeepsSubsets(kind, v3) && Exactable(p.destinations, true, v3, server) ==>
              && (SomeInboundApplies(out, conf, client, server) <==>
                    AnyMatches(p.sources, client) && AnyMeant(p.destinations, v3, server))
              && (SameTags(p.destinations, v3, server) ==>
                    (SomeInboundApplies(out, conf, client, server) <==>
                       AnyMatches(p.sources, client) && AnyMatches(p.destinations, server)))
  {
    var sources, destinations :| InboundResult(p, kind, conf, v3, sources, destinations, out);
    SplitNamesDistinct(destinations, p, kind, out);
    InboundMeans(p, kind, conf, v3, sources, destinations, out, client, server);
    if Carried(p.destinations, true, v3, server) && AnyMatches(p.destinations, server) {
      ListCovers(p.destinations, true, v3, destinations, server);
    }
    if !UsesRules(kind, v3) {
      SourcesCover(p.sources, kind, v3, sources, client);
    }
    if Exactable(p.destinations, true, v3, server) {
      ListExact(p.destinations, true, v3, destinations, server);
    }
  }

  /** For all selectors: over all pairs the output policies configure exactly the servers the destinations pick, and of
      the clients those the sources matched where 2.x keeps subsets, all of them where the policy has rules. */
  lemma InboundExactly(p: LegacyPolicy, kind: string, conf: Conf, v3: bool, out: seq<Policy>)
    requires InboundConversion(p, kind, conf, v3, out) && p.destinations != []
    ensures exists s, d :: InboundPicked(p, kind, conf, v3, out, s, d)
  {
    hide InboundResult, AllMirrored, SomeInboundApplies, AnyPicks, OrdersOf;
    var sources, destinations :| InboundResult(p, kind, conf, v3, sources, destinations, out);
    InboundRefs(p, kind, conf, v3, sources, destinations, out);
    var d := OrdersOf(p.destinations, true, v3, destinations);
    var s := if ReadsClientLabels(kind, v3) then OrdersOf(p.sources, false, v3, sources)
             else seq(|p.sources|, i => false);
    forall client, server |
      && AllMirrored(p.destinations, true, v3, server)
      && (ReadsClientLabels(kind, v3) ==> AllMirrored(p.sources, false, v3, client))
      ensures SomeInboundApplies(out, conf, client, server) <==>
                AnyPicks(p.destinations, true, v3, d, server) && ClientPicked(p.sources, kind, v3, s, client)
    {
      InboundMeans(p, kind, conf, v3, sources, destinations, out, client, server);
      ListPicks(p.destinations, true, v3, destinations, server);
      if !UsesRules(kind, v3) { SourcesPick(p.sources, kind, v3, sources, client); }
    }
    assert InboundPicked(p, kind, conf, v3, out, s, d);
  }

  lemma InboundRefs(p: LegacyPolicy, kind: string, conf: Conf, v3: bool, sources: seq<TargetRef>,
                    destinations: seq<TargetRef>, out: seq<Policy>)
    requires InboundResult(p, kind, conf, v3, sources, destinations, out) && p.destinations != []
    ensures AllSelectAs(OrEveryone(p.destinations), true, v3, destinations)
    ensures !UsesRules(kind, v3) ==>
              && |sources| == |OrEveryone(p.sources)|
              && forall i :: 0 <= i < |sources| ==> FromConvertsTo(OrEveryone(p.sources)[i], kind, v3, sources[i])
  {
  }

  lemma SourcesPick(srcs: seq<Tags>, kind: string, v3: bool, refs: seq<TargetRef>, client: Proxy)
    requires !UsesRules(kind, v3) && |refs| == |OrEveryone(srcs)|
    requires forall i :: 0 <= i < |refs| ==> FromConvertsTo(OrEveryone(srcs)[i], kind, v3, refs[i])
    requires ReadsClientLabels(kind, v3) ==> AllMirrored(srcs, false, v3, client)
    ensures var s := if ReadsClientLabels(kind, v3) then OrdersOf(srcs, false, v3, refs)
                     else seq(|srcs|, i => false);
      AnySelects(refs, client) <==> ClientPicked(srcs, kind, v3, s, client)
  {
    hide SelectsAs, AnySelects, AnyPicks, AnyMatches, OrdersOf, AllMirrored;
    if ReadsClientLabels(kind, v3) {
      ListPicks(srcs, false, v3, refs, client);
    } else {
      SourcesCover(srcs, kind, v3, refs, client);
    }
  }

  ghost predicate ClientPicked(sources: seq<Tags>, kind: string, v3: bool, s: seq<bool>, client: Proxy)
    requires |s| == |sources|
  {
    if kind == "MeshRateLimit" || (v3 && kind == "MeshFaultInjection") then true
    else if !v3 && kind in {"MeshTrafficPermission", "MeshFaultInjection"} then AnyMatches(sources, client)
    else AnyPicks(sources, false, v3, s, client)
  }

  ghost predicate InboundPicked(p: LegacyPolicy, kind: string, conf: Conf, v3: bool, out: seq<Policy>, s: seq<bool>,
                                d: seq<bool>)
  {
    && |s| == |p.sources| && |d| == |p.destinations|
    && forall client, server ::
         && AllMirrored(p.destinations, true, v3, server)
         && (ReadsClientLabels(kind, v3) ==> AllMirrored(p.sources, false, v3, client)) ==>
           (SomeInboundApplies(out, conf, client, server) <==>
              AnyPicks(p.destinations, true, v3, d, server) && ClientPicked(p.sources, kind, v3, s, client))
  }

  /** A source that asks for no tag but the '*' service. */
  predicate Wildcard(source: Tags) {
    forall k :: k in source ==> k == SERVICE && source[k] == "*"
  }

  /** The sources mean every client if and only if there are none, or one of them is a wildcard. */
  lemma EveryClientMeant(sources: seq<Tags>)
    ensures (forall c :: AnyMatches(sources, c)) <==>
              sources == [] || exists i :: 0 <= i < |sources| && Wildcard(sources[i])
  {
    if forall c :: AnyMatches(sources, c) {
      assert AnyMatches(sources, Proxy(map[], map[], map[]));
    }
    if i :| 0 <= i < |sources| && Wildcard(sources[i]) {
      forall c ensures AnyMatches(sources, c) { assert TagsMatch(sources[i], c.tags); }
    }
  }

  /** The stated exception: a rule-based conversion reaches every client of its destinations. On a server of the
      destinations it configures exactly the clients the legacy policy meant if and only if that was every client. */
  lemma RulesReachEveryClient(p: LegacyPolicy, kind: string, conf: Conf, v3: bool, out: seq<Policy>, server: Proxy)
    requires InboundConversion(p, kind, conf, v3, out) && p.destinations != []
    requires UsesRules(kind, v3) && Exactable(p.destinations, true, v3, server)
    ensures forall client :: SomeInboundApplies(out, conf, client, server) <==> AnyMeant(p.destinations, v3, server)
    ensures AnyMeant(p.destinations, v3, server) ==>
              ((forall client :: SomeInboundApplies(out, conf, client, server) <==> AnyMatches(p.sources, client))
               <==> p.sources == [] || exists i :: 0 <= i < |p.sources| && Wildcard(p.sources[i]))
  {
    hide AnyMatches, AnyMeant, SomeInboundApplies, Exactable, Wildcard;
    forall client ensures SomeInboundApplies(out, conf, client, server) <==> AnyMeant(p.destinations, v3, server) {
      RulesApply(p, kind, conf, v3, out, client, server);
    }
    EveryClientMeant(p.sources);
  }

  lemma RulesApply(p: LegacyPolicy, kind: string, conf: Conf, v3: bool, out: seq<Policy>, client: Proxy, server: Proxy)
    requires InboundConversion(p, kind, conf, v3, out) && p.destinations != []
    requires UsesRules(kind, v3) && Exactable(p.destinations, true, v3, server)
    ensures SomeInboundApplies(out, conf, client, server) <==> AnyMeant(p.destinations, v3, server)
  {
    hide AnyMatches, AnyMeant, SomeInboundApplies, Exactable;
    var sources, destinations :| InboundResult(p, kind, conf, v3, sources, destinations, out);
    InboundMeans(p, kind, conf, v3, sources, destinations, out, client, server);
    ListExact(p.destinations, true, v3, destinations, server);
  }

  /** 3.0 accepts exactly the fault injections whose sources are all wildcards, so these keep their meaning. */
  lemma WildcardFaultsExact(sources: seq<Tags>)
    ensures AllWildcard(sources) <==> forall i :: 0 <= i < |sources| ==> Wildcard(sources[i])
    ensures AllWildcard(sources) ==> forall c :: AnyMatches(sources, c)
  {
    forall i | 0 <= i < |sources| && Wildcard(sources[i])
      ensures sources[i] == map[] || sources[i] == map[SERVICE := "*"]
    {
      if sources[i] != map[] { assert sources[i] == map[SERVICE := "*"]; }
    }
    if AllWildcard(sources) && sources != [] { assert Wildcard(sources[0]); }
    EveryClientMeant(sources);
  }

  // ---- selector policies -------------------------------------------------------

  /** One policy per converted selector, or one for the mesh. */
  ghost predicate SelectorConversion(p: LegacyPolicy, kind: string, v3: bool, out: seq<Policy>) {
    exists selected :: SelectorResult(p, kind, v3, selected, out)
  }

  ghost predicate SelectorResult(p: LegacyPolicy, kind: string, v3: bool, selected: seq<TargetRef>, out: seq<Policy>) {
    AllSelectAs(OrEveryone(p.selectors), true, v3, selected) && OnePolicyPer(Merged(selected), p, kind, out)
  }

  /** transformSelectorLegacy: selectors become spec.targetRef, conf becomes spec.default. */
  method TransformSelectors(p: LegacyPolicy, kind: string, conf: Conf, v3: bool)
    returns (r: Result<seq<Policy>, Error>, warnings: seq<Warning>)
    ensures r.Ok? ==> SelectorConversion(p, kind, v3, r.value)
    ensures r.Ok? ==> forall i :: 0 <= i < |r.value| ==>
              r.value[i].default == Some(conf) && r.value[i].to == [] && r.value[i].from == [] && r.value[i].rules == []
    ensures r.Err? <==> exists i :: 0 <= i < |p.selectors| && Inexpressible(p.selectors[i], true, v3)
  {
    hide ConvertSelector, SelectsAs, Inexpressible;
    EveryoneIsMesh(true, v3);
    var top, w := ConvertSelectors(OrEveryone(p.selectors), true, v3);
    warnings := w;
    if top.Err? { return Err(top.error), warnings; }
    var refs := if AllMesh(top.value) then [Bare("Mesh")] else top.value;
    var out := [];
    for i := 0 to |refs|
      invariant |out| == i
      invariant forall j :: 0 <= j < i ==>
        out[j] == Policy(kind, if |refs| > 1 then IndexedName(p.name, j) else p.name, p.mesh, refs[j],
                         [], [], [], Some(conf))
    {
      var name := if |refs| > 1 then IndexedName(p.name, i) else p.name;
      out := out + [Policy(kind, name, p.mesh, refs[i], [], [], [], Some(conf))];
    }
    assert SelectorResult(p, kind, v3, top.value, out);
    return Ok(out), warnings;
  }

  ghost predicate SomeSelects(out: seq<Policy>, proxy: Proxy) {
    exists i :: 0 <= i < |out| && Selects(out[i].targetRef, proxy)
  }

  lemma SelectsAsMerged(selected: seq<TargetRef>, p: LegacyPolicy, kind: string, out: seq<Policy>, proxy: Proxy)
    requires OnePolicyPer(Merged(selected), p, kind, out)
    ensures SomeSelects(out, proxy) <==> AnySelects(Merged(selected), proxy)
  {
    hide Selects, Merged;
    if AnySelects(Merged(selected), proxy) {
      var i :| 0 <= i < |Merged(selected)| && Selects(Merged(selected)[i], proxy);
      assert Selects(out[i].targetRef, proxy);
    }
  }

  /** A proxy is configured by some output of a selector policy exactly when a converted selector picks it. */
  lemma SelectorCoverage(p: LegacyPolicy, kind: string, v3: bool, out: seq<Policy>, proxy: Proxy)
    requires SelectorConversion(p, kind, v3, out)
    ensures DistinctNames(out)
    ensures Carried(p.selectors, true, v3, proxy) && AnyMatches(p.selectors, proxy) ==> SomeSelects(out, proxy)
    ensures Exactable(p.selectors, true, v3, proxy) ==>
              && (SomeSelects(out, proxy) <==> AnyMeant(p.selectors, v3, proxy))
              && (SameTags(p.selectors, v3, proxy) ==>
                  (AnyMeant(p.selectors, v3, proxy) <==> AnyMatches(p.selectors, proxy)))
  {
    var selected :| SelectorResult(p, kind, v3, selected, out);
    SplitNamesDistinct(Merged(selected), p, kind, out);
    MergedSelects(selected, proxy);
    SelectsAsMerged(selected, p, kind, out, proxy);
    if Carried(p.selectors, true, v3, proxy) && AnyMatches(p.selectors, proxy) {
      ListCovers(p.selectors, true, v3, selected, proxy);
    }
    if Exactable(p.selectors, true, v3, proxy) { ListExact(p.selectors, true, v3, selected, proxy); }
  }

  /** For all selectors: over all proxies the output policies configure exactly those the selectors pick. */
  lemma SelectorExactly(p: LegacyPolicy, kind: string, v3: bool, out: seq<Policy>)
    requires SelectorConversion(p, kind, v3, out)
    ensures exists s :: ProxiesPicked(p, v3, out, s)
  {
    hide AllMirrored, AnyPicks, OrdersOf, SelectsAs, Selects, Merged;
    var selected :| SelectorResult(p, kind, v3, selected, out);
    var s := OrdersOf(p.selectors, true, v3, selected);
    forall proxy | AllMirrored(p.selectors, true, v3, proxy)
      ensures SomeSelects(out, proxy) <==> AnyPicks(p.selectors, true, v3, s, proxy)
    {
      ListPicks(p.selectors, true, v3, selected, proxy);
      MergedSelects(selected, proxy);
      SelectsAsMerged(selected, p, kind, out, proxy);
    }
    assert ProxiesPicked(p, v3, out, s);
  }

  ghost predicate ProxiesPicked(p: LegacyPolicy, v3: bool, out: seq<Policy>, s: seq<bool>) {
    && |s| == |p.selectors|
    && forall proxy :: AllMirrored(p.selectors, true, v3, proxy) ==>
         (SomeSelects(out, proxy) <==> AnyPicks(p.selectors, true, v3, s, proxy))
  }
}
