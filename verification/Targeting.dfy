/** Selector compilation (convert.go): legacy tag selectors and MeshSubset refs become targetRefs. */
module Targeting {
  import opened Text
  import opened TagKeys
  import ServiceTag

  datatype TargetRef = TargetRef(
    kind: string, name: Option<string>, namespace: Option<string>,
    tags: Tags, labels: Tags, mesh: Option<string>, sectionName: Option<string>)

  function Bare(kind: string): TargetRef {
    TargetRef(kind, None, None, map[], map[], None, None)
  }

  function Labelled(kind: string, labels: Tags, sectionName: Option<string>): TargetRef {
    Bare(kind).(labels := labels, sectionName := sectionName)
  }

  /** Which advisory a conversion emits, and about which items; the prose is not modelled. */
  datatype Warning =
    | BestGuessApp(name: string, onUniversal: bool)
    | DroppedTags(dropped: Tags)
    | SourceNotPreserved(match_: Tags)
    | InvalidName(name: string)

  datatype Error =
    | NoEquivalent(kind: string, tags: Tags)
    | NoDestinations
    | NeedsClientIdentity

  function NonEmpty(s: string): Option<string> {
    if s == "" then None else Some(s)
  }

  // ---- which tags are labels -----------------------------------------------

  predicate HasSuffix(s: string, suffix: string) {
    |s| >= |suffix| && s[|s| - |suffix|..] == suffix
  }

  /** isReservedTagKey: a key with a slash whose domain is kuma.io or below it. */
  predicate ReservedKey(key: string) {
    '/' in key && (FirstSegment(key) == "kuma.io" || HasSuffix(FirstSegment(key), ".kuma.io"))
  }

  predicate SelectorLabelKey(key: string) {
    key == ZONE || key == ENV || key == MESH || key == ORIGIN || key == NAMESPACE
  }

  predicate Dropped(key: string) {
    ReservedKey(key) && !SelectorLabelKey(key)
  }

  function Kept(tags: Tags): Tags {
    map k | k in tags && !Dropped(k) :: tags[k]
  }

  function DroppedOf(tags: Tags): Tags {
    map k | k in tags && Dropped(k) :: tags[k]
  }

  function DropWarning(tags: Tags): seq<Warning> {
    var dropped := DroppedOf(tags);
    if dropped == map[] then [] else [DroppedTags(dropped)]
  }

  /** selectorLabelsFromTags, visiting the tags in any order. */
  method SelectorLabelsFromTags(tags: Tags) returns (labels: Tags, warn: seq<Warning>)
    ensures labels == Kept(tags)
    ensures warn == DropWarning(tags)
  {
    hide Dropped;
    labels := map[];
    var dropped: Tags := map[];
    var todo := tags.Keys;
    while todo != {}
      invariant todo <= tags.Keys
      invariant labels == map k | k in tags && k !in todo && !Dropped(k) :: tags[k]
      invariant dropped == map k | k in tags && k !in todo && Dropped(k) :: tags[k]
      decreases |todo|
    {
      var k :| k in todo;
      todo := todo - {k};
      if Dropped(k) {
        dropped := dropped[k := tags[k]];
      } else {
        labels := labels[k := tags[k]];
      }
    }
    assert dropped == DroppedOf(tags);
    warn := if dropped == map[] then [] else [DroppedTags(dropped)];
  }

  function NameKey(topLevel: bool): string {
    if topLevel then APP else DISPLAY_NAME
  }

  function Labels(id: ServiceTag.Identity, zone: string, extra: Tags, topLevel: bool): Tags {
    Put(Put(Put(Kept(extra), NameKey(topLevel), id.name), NAMESPACE, id.namespace), ZONE, zone)
  }

  function LabelWarnings(id: ServiceTag.Identity, extra: Tags, topLevel: bool): seq<Warning> {
    (if topLevel then [BestGuessApp(id.name, id.namespace == "")] else []) + DropWarning(extra)
  }

  /** buildLabels. */
  method BuildLabels(id: ServiceTag.Identity, zone: string, extra: Tags, topLevel: bool)
    returns (labels: Tags, warn: seq<Warning>)
    ensures labels == Labels(id, zone, extra, topLevel)
    ensures warn == LabelWarnings(id, extra, topLevel)
  {
    labels, warn := SelectorLabelsFromTags(extra);
    if topLevel {
      if id.name != "" {
        labels := labels[APP := id.name];
      }
      warn := [BestGuessApp(id.name, id.namespace == "")] + warn;
    } else if id.name != "" {
      labels := labels[DISPLAY_NAME := id.name];
    }
    if id.namespace != "" {
      labels := labels[NAMESPACE := id.namespace];
    }
    if zone != "" {
      labels := labels[ZONE := zone];
    }
  }

  // ---- targetRef conversion ------------------------------------------------

  predicate SubsetKind(kind: string) {
    kind == "MeshSubset" || kind == "MeshServiceSubset"
  }

  predicate ServiceKey(key: string) {
    key == SERVICE || key == SERVICE_NAME
  }

  /** The service tag that decides: with both present, whichever the iteration visits last. */
  function DecidingKey(tags: Tags, nameLast: bool): Option<string> {
    if SERVICE in tags && SERVICE_NAME in tags then Some(if nameLast then SERVICE_NAME else SERVICE)
    else if SERVICE in tags then Some(SERVICE)
    else if SERVICE_NAME in tags then Some(SERVICE_NAME)
    else None
  }

  function OtherTags(tags: Tags): Tags {
    map k | k in tags && !ServiceKey(k) && k != NAMESPACE && k != ZONE :: tags[k]
  }

  /** The service a deciding tag names; a namespace it does not encode comes from the hints, in order. */
  function Resolve(key: string, value: string, tagNamespace: string, policyNamespace: string): ServiceTag.Identity {
    var id := if key == SERVICE_NAME then ServiceTag.Identity(value, "") else ServiceTag.Parse(value);
    if id.namespace != "" then id
    else if tagNamespace != "" then id.(namespace := tagNamespace)
    else id.(namespace := policyNamespace)
  }

  function ServiceRef(id: ServiceTag.Identity, zone: string, extra: Tags, policyNamespace: string, topLevel: bool,
                      labelsOnly: bool): (TargetRef, seq<Warning>)
  {
    var kind := if topLevel then "Dataplane" else "MeshService";
    if extra != map[] || zone != "" then
      (Labelled(kind, Labels(id, zone, extra, topLevel), None), LabelWarnings(id, extra, topLevel))
    else if labelsOnly || topLevel || (policyNamespace != "" && policyNamespace != id.namespace) then
      (Labelled(kind, Labels(id, "", map[], topLevel), None), LabelWarnings(id, map[], topLevel))
    else
      (Bare(kind).(name := NonEmpty(id.name), namespace := NonEmpty(id.namespace)), [])
  }

  /** A MeshService ref that still carries the generated <name>_<namespace>_svc_<port> name. */
  predicate OldServiceName(ref: TargetRef) {
    ref.name.Some? && ServiceTag.GeneratedName(ref.kind, ref.name.value)
  }

  function ConvertOldName(ref: TargetRef, policyNamespace: string, topLevel: bool, labelsOnly: bool)
    : (TargetRef, seq<Warning>)
    requires OldServiceName(ref)
  {
    var (out, warn) := ServiceRef(ServiceTag.Parse(ref.name.value), "", map[], policyNamespace, topLevel, labelsOnly);
    // Unlike a decoded tag, an empty decoded name is kept as an (empty) name here.
    var named := if out.namespace.Some? then out.(name := Some(ServiceTag.Parse(ref.name.value).name)) else out;
    (named.(sectionName := ref.sectionName), warn)
  }

  function ConvertSubset(ref: TargetRef, policyNamespace: string, topLevel: bool, labelsOnly: bool, nameLast: bool)
    : (TargetRef, seq<Warning>)
  {
    var key := DecidingKey(ref.tags, nameLast);
    var tagNamespace, zone := TagOr(ref.tags, NAMESPACE), TagOr(ref.tags, ZONE);
    if key.None? then
      if topLevel then
        var labels := Put(Put(Kept(OtherTags(ref.tags)), NAMESPACE, tagNamespace), ZONE, zone);
        var warn := DropWarning(OtherTags(ref.tags));
        if labels == map[] then (ref, warn) else (Labelled("Dataplane", labels, None), warn)
      else (ref, [])
    else if ref.tags[key.value] == "*" then (Bare("Mesh"), [])
    else
      ServiceRef(Resolve(key.value, ref.tags[key.value], tagNamespace, policyNamespace), zone, OtherTags(ref.tags),
                 policyNamespace, topLevel, labelsOnly)
  }

  function ConvertRef(ref: TargetRef, policyNamespace: string, topLevel: bool, labelsOnly: bool, nameLast: bool)
    : (TargetRef, seq<Warning>)
  {
    if SubsetKind(ref.kind) then ConvertSubset(ref, policyNamespace, topLevel, labelsOnly, nameLast)
    else if OldServiceName(ref) then ConvertOldName(ref, policyNamespace, topLevel, labelsOnly)
    else (ref, [])
  }

  predicate RefConverts(ref: TargetRef, policyNamespace: string, topLevel: bool, labelsOnly: bool,
                        out: (TargetRef, seq<Warning>))
  {
    || out == ConvertRef(ref, policyNamespace, topLevel, labelsOnly, false)
    || out == ConvertRef(ref, policyNamespace, topLevel, labelsOnly, true)
  }

  /** The tag loop of convertTargetRef, visiting the tags in any order. */
  method PartitionTags(tags: Tags)
    returns (key: Option<string>, tagNamespace: string, zone: string, others: Tags)
    ensures key == DecidingKey(tags, false) || key == DecidingKey(tags, true)
    ensures tagNamespace == TagOr(tags, NAMESPACE) && zone == TagOr(tags, ZONE)
    ensures others == OtherTags(tags)
  {
    key, tagNamespace, zone, others := None, "", "", map[];
    var todo := tags.Keys;
    while todo != {}
      invariant todo <= tags.Keys
      invariant key.Some? ==> ServiceKey(key.value) && key.value in tags && key.value !in todo
      invariant key.None? ==> forall k :: k in tags && ServiceKey(k) ==> k in todo
      invariant tagNamespace == if NAMESPACE in todo then "" else TagOr(tags, NAMESPACE)
      invariant zone == if ZONE in todo then "" else TagOr(tags, ZONE)
      invariant others == map k | k in tags && k !in todo && !ServiceKey(k) && k != NAMESPACE && k != ZONE :: tags[k]
      decreases |todo|
    {
      var k :| k in todo;
      todo := todo - {k};
      if ServiceKey(k) {
        key := Some(k);
      } else if k == NAMESPACE {
        tagNamespace := tags[k];
      } else if k == ZONE {
        zone := tags[k];
      } else {
        others := others[k := tags[k]];
      }
    }
    assert others == OtherTags(tags);
  }

  /** The tail of convertTargetRef, shared with its branch for half-migrated MeshService names. */
  method MakeServiceRef(id: ServiceTag.Identity, zone: string, extra: Tags, policyNamespace: string, topLevel: bool,
                        labelsOnly: bool)
    returns (out: TargetRef, warn: seq<Warning>)
    ensures (out, warn) == ServiceRef(id, zone, extra, policyNamespace, topLevel, labelsOnly)
  {
    var kind := if topLevel then "Dataplane" else "MeshService";
    if extra != map[] || zone != "" {
      var labels, w := BuildLabels(id, zone, extra, topLevel);
      return Labelled(kind, labels, None), w;
    }
    if labelsOnly || topLevel || (policyNamespace != "" && policyNamespace != id.namespace) {
      var labels, w := BuildLabels(id, "", map[], topLevel);
      return Labelled(kind, labels, None), w;
    }
    return Bare(kind).(name := NonEmpty(id.name), namespace := NonEmpty(id.namespace)), [];
  }

  /** convertTargetRef: the result is one of the two that the possible last visits allow. */
  method ConvertTargetRef(ref: TargetRef, policyNamespace: string, topLevel: bool, labelsOnly: bool)
    returns (out: TargetRef, warn: seq<Warning>)
    ensures RefConverts(ref, policyNamespace, topLevel, labelsOnly, (out, warn))
  {
    if !SubsetKind(ref.kind) {
      if ref.kind != "MeshService" || ref.name.None? || !ServiceTag.Encoded(ref.name.value) {
        return ref, [];
      }
      var id := ServiceTag.Parse(ref.name.value);
      out, warn := MakeServiceRef(id, "", map[], policyNamespace, topLevel, labelsOnly);
      if out.namespace.Some? {
        out := out.(name := Some(id.name));
      }
      out := out.(sectionName := ref.sectionName);
      return;
    }
    var key, tagNamespace, zone, others := PartitionTags(ref.tags);
    if key.None? {
      if !topLevel {
        return ref, [];
      }
      var labels, w := SelectorLabelsFromTags(others);
      labels := Put(Put(labels, NAMESPACE, tagNamespace), ZONE, zone);
      if labels == map[] {
        return ref, w;
      }
      return Labelled("Dataplane", labels, None), w;
    }
    if ref.tags[key.value] == "*" {
      return Bare("Mesh"), [];
    }
    var id := Resolve(key.value, ref.tags[key.value], tagNamespace, policyNamespace);
    out, warn := MakeServiceRef(id, zone, others, policyNamespace, topLevel, labelsOnly);
  }

  type Converted = Result<(TargetRef, seq<Warning>), Error>

  function ForTarget(converted: (TargetRef, seq<Warning>), topLevel: bool, v3: bool): Converted {
    if v3 && SubsetKind(converted.0.kind) then
      if topLevel && converted.0.tags == map[] then Ok((Bare("Mesh"), converted.1))
      else Err(NoEquivalent(converted.0.kind, converted.0.tags))
    else Ok(converted)
  }

  /** ConvertTargetRefForTarget, for one of the two tag orders. */
  function ConvertRefFor(ref: TargetRef, policyNamespace: string, topLevel: bool, v3: bool, nameLast: bool): Converted {
    ForTarget(ConvertRef(ref, policyNamespace, topLevel, v3, nameLast), topLevel, v3)
  }

  predicate RefConvertsFor(ref: TargetRef, policyNamespace: string, topLevel: bool, v3: bool, r: Converted) {
    || r == ConvertRefFor(ref, policyNamespace, topLevel, v3, false)
    || r == ConvertRefFor(ref, policyNamespace, topLevel, v3, true)
  }

  method ConvertTargetRefForTarget(ref: TargetRef, policyNamespace: string, topLevel: bool, v3: bool)
    returns (r: Converted)
    ensures RefConvertsFor(ref, policyNamespace, topLevel, v3, r)
  {
    var out, warn := ConvertTargetRef(ref, policyNamespace, topLevel, v3);
    if v3 && SubsetKind(out.kind) {
      if topLevel && out.tags == map[] {
        return Ok((Bare("Mesh"), warn));
      }
      return Err(NoEquivalent(out.kind, out.tags));
    }
    return Ok((out, warn));
  }

  function ConvertSelector(sel: Tags, policyNamespace: string, topLevel: bool, v3: bool, nameLast: bool): Converted {
    if sel == map[] || Has(sel, SERVICE, "*") then Ok((Bare("Mesh"), []))
    else if SERVICE !in sel && !v3 then Ok((Bare("MeshSubset").(tags := sel), []))
    else ConvertRefFor(Bare("MeshSubset").(tags := sel), policyNamespace, topLevel, v3, nameLast)
  }

  predicate SelectorConverts(sel: Tags, policyNamespace: string, topLevel: bool, v3: bool, r: Converted) {
    || r == ConvertSelector(sel, policyNamespace, topLevel, v3, false)
    || r == ConvertSelector(sel, policyNamespace, topLevel, v3, true)
  }

  /** ConvertSelectorToTargetRefForTarget. */
  method ConvertSelectorForTarget(sel: Tags, policyNamespace: string, topLevel: bool, v3: bool) returns (r: Converted)
    ensures SelectorConverts(sel, policyNamespace, topLevel, v3, r)
  {
    if sel == map[] || Has(sel, SERVICE, "*") {
      return Ok((Bare("Mesh"), []));
    }
    if SERVICE !in sel && !v3 {
      return Ok((Bare("MeshSubset").(tags := sel), []));
    }
    r := ConvertTargetRefForTarget(Bare("MeshSubset").(tags := sel), policyNamespace, topLevel, v3);
  }

  function WithoutServiceStar(sel: Tags): Tags {
    map k | k in sel && !(k == SERVICE && sel[k] == "*") :: sel[k]
  }

  function FromSubset(sel: Tags): TargetRef {
    var tags := WithoutServiceStar(sel);
    if tags == map[] then Bare("Mesh") else Bare("MeshSubset").(tags := tags)
  }

  /** fromSubsetRefV2: the from[] ref a 2.x permission or fault policy keeps. */
  method FromSubsetRefV2(sel: Tags) returns (ref: TargetRef)
    ensures ref == FromSubset(sel)
  {
    var tags: Tags := map[];
    var todo := sel.Keys;
    while todo != {}
      invariant todo <= sel.Keys
      invariant tags == map k | k in WithoutServiceStar(sel) && k !in todo :: sel[k]
      decreases |todo|
    {
      var k :| k in todo;
      todo := todo - {k};
      if k == SERVICE && sel[k] == "*" { continue; }
      tags := tags[k := sel[k]];
    }
    assert tags == WithoutServiceStar(sel);
    ref := if tags == map[] then Bare("Mesh") else Bare("MeshSubset").(tags := tags);
  }

  predicate MeshSubsetFromKind(kind: string) {
    kind == "MeshTrafficPermission" || kind == "MeshFaultInjection"
  }

  /** The from[] of a 2.x permission or fault injection keeps subsets of tags. */
  predicate KeepsSubsets(kind: string, v3: bool) {
    !v3 && MeshSubsetFromKind(kind)
  }

  /** fromRefForTarget. */
  function FromRef(ref: TargetRef, policyKind: string, policyNamespace: string, v3: bool, nameLast: bool): Converted {
    if KeepsSubsets(policyKind, v3) && ref.kind == "MeshSubset" then Ok((ref, []))
    else if KeepsSubsets(policyKind, v3) && OldServiceName(ref) then
      Ok((FromSubset(map[SERVICE := ref.name.value]), []))
    else ConvertRefFor(ref, policyNamespace, false, v3, nameLast)
  }

  method FromRefForTarget(ref: TargetRef, policyKind: string, policyNamespace: string, v3: bool) returns (r: Converted)
    ensures || r == FromRef(ref, policyKind, policyNamespace, v3, false)
            || r == FromRef(ref, policyKind, policyNamespace, v3, true)
  {
    if !v3 && MeshSubsetFromKind(policyKind) {
      if ref.kind == "MeshSubset" {
        return Ok((ref, []));
      }
      if ref.kind == "MeshService" && ref.name.Some? && ServiceTag.Encoded(ref.name.value) {
        var subset := FromSubsetRefV2(map[SERVICE := ref.name.value]);
        return Ok((subset, []));
      }
    }
    r := ConvertTargetRefForTarget(ref, policyNamespace, false, v3);
  }

  // ---- what a ref selects ---------------------------------------------------

  /** A proxy: its inbound tags, its Dataplane's labels, and the labels of the MeshService it backs. */
  datatype Proxy = Proxy(tags: Tags, labels: Tags, service: Tags)

  /** The documented reading of a tag selector: every tag equal, kuma.io/service: '*' meaning any service. */
  ghost predicate TagsMatch(sel: Tags, tags: Tags) {
    forall k :: k in sel && !(k == SERVICE && sel[k] == "*") ==> Has(tags, k, sel[k])
  }

  ghost predicate Selects(ref: TargetRef, p: Proxy) {
    match ref.kind
    case "Mesh" => true
    case "MeshSubset" => TagsMatch(ref.tags, p.tags)
    case "Dataplane" => LabelsMatch(ref.labels, p.labels)
    case "MeshService" =>
      && LabelsMatch(ref.labels, p.service)
      && (ref.name.Some? ==> Has(p.service, DISPLAY_NAME, ref.name.value))
      && (ref.namespace.Some? ==> Has(p.service, NAMESPACE, ref.namespace.value))
    case _ => false
  }

  /** For the keys of a selector: the labels carry the label-worthy tags, and the services the service tags
      decode to. Tags and labels the selector does not mention are free. */
  ghost predicate CarriesTags(sel: Tags, tags: Tags, labels: Tags, nameKey: string) {
    && (forall k :: k in sel && k in tags && !Dropped(k) ==> Has(labels, k, tags[k]))
    && forall key :: ServiceKey(key) && key in sel && key in tags ==>
         var id := Resolve(key, tags[key], "", "");
         && (id.name != "" ==> Has(labels, nameKey, id.name))
         && (id.namespace != "" ==> Has(labels, NAMESPACE, id.namespace))
  }

  /** A top-level ref selects Dataplanes by their labels, another one MeshServices by theirs. */
  ghost function LabelsOf(p: Proxy, topLevel: bool): Tags {
    if topLevel then p.labels else p.service
  }

  ghost predicate Carries(sel: Tags, p: Proxy, topLevel: bool) {
    CarriesTags(sel, p.tags, LabelsOf(p, topLevel), NameKey(topLevel))
  }
}
