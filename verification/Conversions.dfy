/** What TransformDocumentWithOptions returns under v3 (transform.go, detect.go): which kinds each scenario and each
    later pass produces. Bodies are left open; kinds, and what decides them, are not. */
module Conversions {
  import opened Text
  import opened Json
  import opened TagKeys
  import opened ApplyTree
  import ServiceTag
  import Targeting
  import FixedPoint
  import OtelBackends
  import AccessRoles

  // ---- detection -------------------------------------------------------------

  datatype Scenario =
    | Legacy | Subset | Rules | MeshDocument | ExternalService | OpaPolicy
    | Gateway | GatewayInstance | GatewayRoute | Passthrough | Skipped

  predicate Present(obj: Object, key: string) {
    key in obj && !obj[key].Null?
  }

  const LEGACY_KINDS := {
    "Timeout", "CircuitBreaker", "Retry", "TrafficPermission", "FaultInjection", "RateLimit",
    "HealthCheck", "TrafficLog", "TrafficTrace", "TrafficRoute", "ProxyTemplate", "VirtualOutbound"
  }

  predicate Tagged(ref: Object) {
    SERVICE in Sub(ref, "tags") || SERVICE_NAME in Sub(ref, "tags")
  }

  predicate SomeItem(items: seq<Value>, holds: Object -> bool) {
    exists i :: 0 <= i < |items| && ItemRef(items[i]).Some? && holds(ItemRef(items[i]).value)
  }

  predicate NeedsSubset(ref: Object) {
    Tagged(ref) || ServiceTag.GeneratedName(StrOr(ref, "kind"), StrOr(ref, "name"))
  }

  /** DetectScenario. A Mesh with nothing to extract is handled like one with: under v3 both are rewritten. */
  function Detect(obj: Object): Scenario {
    var kind, spec := KindOf(obj), Sub(obj, "spec");
    var top, to, from := Sub(spec, "targetRef"), ArrAt(spec, "to"), ArrAt(spec, "from");
    if kind == "ExternalService" then ExternalService
    else if kind == "OPAPolicy" then OpaPolicy
    else if kind == "MeshGateway" then Gateway
    else if kind == "MeshGatewayInstance" then GatewayInstance
    else if kind == "MeshGatewayRoute" then GatewayRoute
    else if kind == "Mesh" then MeshDocument
    else if kind in {"ContainerPatch", "HostnameGenerator", "AccessRole", "AccessAudit"} then Passthrough
    else if Present(obj, "sources") || Present(obj, "destinations") || kind in LEGACY_KINDS then Legacy
    else if FixedPoint.RulesKind(kind) && from != [] && !Tagged(top) && !SomeItem(from, Tagged) then Rules
    else if !("Mesh" <= kind) then Skipped
    else if NeedsSubset(top) || StrOr(top, "kind") == "MeshSubset" || SomeItem(to, NeedsSubset) ||
        SomeItem(from, NeedsSubset)
    then Subset
    else Passthrough
  }

  /** A policy document and its parts: d says of obj what detection looks at. */
  ghost predicate Reads(obj: Object, d: FixedPoint.Doc) {
    var spec := Sub(obj, "spec");
    && d.kind == KindOf(obj) && RefReads(ObjAt(spec, "targetRef"), d.ref)
    && ItemsRead(ArrAt(spec, "to"), d.to) && ItemsRead(ArrAt(spec, "from"), d.from)
  }

  ghost predicate RefReads(obj: Option<Object>, ref: Option<Targeting.TargetRef>) {
    && (obj.Some? <==> ref.Some?)
    && (obj.Some? && ref.Some? ==>
          && StrOr(obj.value, "kind") == ref.value.kind && StrAt(obj.value, "name") == ref.value.name
          && Sub(obj.value, "tags").Keys == ref.value.tags.Keys)
  }

  ghost predicate ItemsRead(items: seq<Value>, es: seq<FixedPoint.Entry>) {
    && |items| == |es|
    && forall i :: 0 <= i < |items| ==>
         RefReads(ItemRef(items[i]), if es[i].Entry? then es[i].ref else None)
  }

  lemma SomeEntry(items: seq<Value>, es: seq<FixedPoint.Entry>)
    requires ItemsRead(items, es)
    ensures SomeItem(items, Tagged) <==> exists i :: 0 <= i < |es| && FixedPoint.EntryTagged(es[i])
    ensures SomeItem(items, NeedsSubset) <==> exists i :: 0 <= i < |es| && FixedPoint.EntryNeedsSubset(es[i])
  {
    hide ServiceTag.Parse, RefReads;
    forall i | 0 <= i < |items|
      ensures ItemRef(items[i]).Some? && Tagged(ItemRef(items[i]).value) <==> FixedPoint.EntryTagged(es[i])
      ensures ItemRef(items[i]).Some? && NeedsSubset(ItemRef(items[i]).value) <==> FixedPoint.EntryNeedsSubset(es[i])
    {
      RefReadsAlike(ItemRef(items[i]), if es[i].Entry? then es[i].ref else None);
    }
    if i :| 0 <= i < |es| && FixedPoint.EntryTagged(es[i]) { assert Tagged(ItemRef(items[i]).value); }
    if i :| 0 <= i < |es| && FixedPoint.EntryNeedsSubset(es[i]) { assert NeedsSubset(ItemRef(items[i]).value); }
  }

  lemma RefReadsAlike(obj: Option<Object>, ref: Option<Targeting.TargetRef>)
    requires RefReads(obj, ref)
    ensures obj.Some? <==> ref.Some?
    ensures obj.Some? ==> (Tagged(obj.value) <==> FixedPoint.HasServiceTag(ref))
    ensures obj.Some? ==> (NeedsSubset(obj.value) <==> FixedPoint.HasServiceTag(ref) || FixedPoint.OldName(ref))
    ensures obj.Some? ==> StrOr(obj.value, "kind") == ref.value.kind
  {
    assert !ServiceTag.Encoded("");
    hide ServiceTag.Parse;
  }

  /** On a policy of a Mesh* kind, detection in a whole document is the one that passes are proved for: a missing ref
      counts as one that asks for nothing. */
  lemma DetectionAgrees(obj: Object, d: FixedPoint.Doc)
    requires Reads(obj, d) && "Mesh" <= d.kind && |d.kind| > 4
    requires d.kind !in {"MeshGateway", "MeshGatewayInstance", "MeshGatewayRoute"}
    requires Get(obj, "sources") in {None, Some(Null)} && Get(obj, "destinations") in {None, Some(Null)}
    ensures Detect(obj) == match FixedPoint.Detect(d)
                           case Rules => Rules case Subset => Subset case Passthrough => Passthrough
  {
    hide ServiceTag.Parse, SomeItem, FixedPoint.EntryTagged, FixedPoint.EntryNeedsSubset;
    var spec := Sub(obj, "spec");
    SomeEntry(ArrAt(spec, "to"), d.to);
    SomeEntry(ArrAt(spec, "from"), d.from);
    RefReadsAlike(ObjAt(spec, "targetRef"), d.ref);
    NothingAsked();
    MeshKinds(d.kind);
  }

  function Get(obj: Object, key: string): Option<Value> {
    if key in obj then Some(obj[key]) else None
  }

  lemma NothingAsked()
    ensures !Tagged(map[]) && !NeedsSubset(map[]) && StrOr(map[], "kind") == ""
  {
    assert !ServiceTag.Encoded("");
  }

  lemma MeshKinds(kind: string)
    requires "Mesh" <= kind && |kind| > 4
    ensures kind !in LEGACY_KINDS && kind !in {"ContainerPatch", "HostnameGenerator", "AccessRole", "AccessAudit"}
    ensures kind !in {"ExternalService", "OPAPolicy", "Mesh"}
  {
    assert kind[0] == "Mesh"[0] == 'M';
  }

  /** The other documents: those of a legacy kind or with legacy lists, whatever their kind, unless it has a transform
      of its own or is no policy; and everything that is not a Mesh* kind is skipped. */
  lemma OtherDetections(obj: Object)
    ensures var kind := KindOf(obj);
      var own := kind in {"ExternalService", "OPAPolicy", "MeshGateway", "MeshGatewayInstance", "MeshGatewayRoute",
                          "Mesh", "ContainerPatch", "HostnameGenerator", "AccessRole", "AccessAudit"};
      var legacy := || kind in LEGACY_KINDS
                    || Get(obj, "sources") !in {None, Some(Null)} || Get(obj, "destinations") !in {None, Some(Null)};
      && (Detect(obj) == Legacy <==> !own && legacy)
      && (Detect(obj) == Skipped <==> !own && !legacy && !("Mesh" <= kind))
      && (Detect(obj) == GatewayRoute <==> kind == "MeshGatewayRoute")
      && (Detect(obj) == Gateway <==> kind == "MeshGateway")
      && (Detect(obj) == GatewayInstance <==> kind == "MeshGatewayInstance")
      && (Detect(obj) == MeshDocument <==> kind == "Mesh")
      && (Detect(obj) == ExternalService <==> kind == "ExternalService")
      && (Detect(obj) == OpaPolicy <==> kind == "OPAPolicy")
  {
    hide SomeItem, ServiceTag.Parse, LEGACY_KINDS;
    RulesKindsAreMesh(KindOf(obj));
  }

  lemma RulesKindsAreMesh(kind: string)
    ensures FixedPoint.RulesKind(kind) ==> "Mesh" <= kind
  {
  }

  /** isUniversalShape. */
  predicate Universal(obj: Object) {
    StrOr(obj, "kind") == "" && StrOr(obj, "type") != ""
  }

  // ---- generated documents -----------------------------------------------------

  /** universalDoc and buildCompanion. */
  function Companion(universal: bool, kind: string, name: string, mesh: string, meta: Object, spec: Object): Object {
    if universal then
      map["type" := Str(kind), "name" := Str(name), "spec" := Obj(spec)]
      + (if mesh == "" then map[] else map["mesh" := Str(mesh)])
    else map["apiVersion" := Str("kuma.io/v1alpha1"), "kind" := Str(kind), "metadata" := Obj(meta), "spec" := Obj(spec)]
  }

  /** A typed TargetRef as a document holds it: the fields the struct has, and no other. */
  function RefObject(ref: Targeting.TargetRef): Object {
    var optional := (key: string, v: Option<string>) => if v.None? then map[] else map[key := Str(v.value)];
    map["kind" := Str(ref.kind), "tags" := Obj(map k | k in ref.tags :: Str(ref.tags[k])),
        "labels" := Obj(map k | k in ref.labels :: Str(ref.labels[k]))]
    + optional("name", ref.name) + optional("namespace", ref.namespace) + optional("mesh", ref.mesh)
    + optional("sectionName", ref.sectionName)
  }

  /** Marshalling a KubePolicy, or re-rendering it as Universal: its targetRef is typed, rest is its other fields. */
  function PolicyDoc(universal: bool, kind: string, name: string, mesh: string, meta: Object, ref: Targeting.TargetRef,
                     rest: Object): Object
  {
    Companion(universal, kind, name, mesh, meta, rest["targetRef" := Obj(RefObject(ref))])
  }

  ghost predicate IsPolicy(d: Object, kind: string) {
    exists universal, name, mesh, meta, ref, rest :: d == PolicyDoc(universal, kind, name, mesh, meta, ref, rest)
  }

  ghost predicate IsCompanion(d: Object, kind: string) {
    exists universal, name, mesh, meta, spec :: d == Companion(universal, kind, name, mesh, meta, spec)
  }

  lemma CompanionKind(universal: bool, kind: string, name: string, mesh: string, meta: Object, spec: Object)
    ensures var d := Companion(universal, kind, name, mesh, meta, spec); KindOf(d) == kind && Sub(d, "spec") == spec
  {
    var d := Companion(universal, kind, name, mesh, meta, spec);
    if universal {
      assert "kind" !in d && d["type"] == Str(kind) && d["spec"] == Obj(spec);
    } else {
      assert "type" !in d && d["kind"] == Str(kind) && d["spec"] == Obj(spec);
    }
  }

  lemma IsCompanionKind(d: Object, kind: string)
    requires IsCompanion(d, kind)
    ensures KindOf(d) == kind
  {
    var universal, name, mesh, meta, spec :| d == Companion(universal, kind, name, mesh, meta, spec);
    CompanionKind(universal, kind, name, mesh, meta, spec);
  }

  lemma IsPolicyKind(d: Object, kind: string)
    requires IsPolicy(d, kind)
    ensures KindOf(d) == kind && !HasProxyTypes(d)
  {
    var universal, name, mesh, meta, ref, rest :| d == PolicyDoc(universal, kind, name, mesh, meta, ref, rest);
    var spec := rest["targetRef" := Obj(RefObject(ref))];
    CompanionKind(universal, kind, name, mesh, meta, spec);
    assert "proxyTypes" !in RefObject(ref) by { RefHasNoProxyTypes(ref); }
  }

  lemma RefHasNoProxyTypes(ref: Targeting.TargetRef)
    ensures "proxyTypes" !in RefObject(ref)
  {
    assert |"proxyTypes"| == 10 && "proxyTypes"[0] == 'p';
  }

  /** The converter kept what says which resource this is. */
  predicate SameIdentity(a: Object, b: Object) {
    forall k :: k in {"kind", "type", "apiVersion"} ==> (k in a <==> k in b) && (k in a ==> a[k] == b[k])
  }

  lemma SameKind(a: Object, b: Object)
    requires SameIdentity(a, b)
    ensures KindOf(a) == KindOf(b)
  {
    assert "kind" in {"kind", "type", "apiVersion"} && "type" in {"kind", "type", "apiVersion"};
  }

  // ---- the scenarios' own transforms ---------------------------------------------

  const SUCCESSORS := map[
    "Timeout" := "MeshTimeout", "CircuitBreaker" := "MeshCircuitBreaker", "Retry" := "MeshRetry",
    "TrafficPermission" := "MeshTrafficPermission", "FaultInjection" := "MeshFaultInjection",
    "RateLimit" := "MeshRateLimit", "HealthCheck" := "MeshHealthCheck", "TrafficLog" := "MeshAccessLog",
    "TrafficTrace" := "MeshTrace", "ProxyTemplate" := "MeshProxyPatch"]

  /** OldTypeToNew: an unrecognised type is its own successor. */
  function NewKind(t: string): string {
    if t in SUCCESSORS then SUCCESSORS[t] else t
  }

  /** A policy becomes what the rules of an access role then call it. */
  lemma SuccessorsAgree(t: string)
    requires t in SUCCESSORS
    ensures t in AccessRoles.KUMA_V3.successors && NewKind(t) == AccessRoles.KUMA_V3.successors[t]
  {
  }

  /** parseLegacyPolicy: the type field, else the kind. */
  function LegacyType(obj: Object): string {
    if StrOr(obj, "type") != "" then StrOr(obj, "type") else StrOr(obj, "kind")
  }

  /** A MeshGatewayRoute with an http or a tcp section. */
  predicate HasRouteConf(obj: Object) {
    var conf := Sub(Sub(obj, "spec"), "conf");
    Present(conf, "http") || Present(conf, "tcp")
  }

  /** What a scenario's transform returns under v3, when it does not fail. */
  ghost predicate Transformed(obj: Object, docs: seq<Object>) {
    match Detect(obj)
    case Legacy =>
      && LegacyType(obj) != "TrafficRoute" && LegacyType(obj) != "VirtualOutbound" && docs != []
      && forall d :: d in docs ==>
           || IsPolicy(d, NewKind(LegacyType(obj)))
           || (NewKind(LegacyType(obj)) == "MeshHealthCheck" && IsPolicy(d, "MeshCircuitBreaker"))
    case Subset => Split(obj, docs)
    case Rules => Split(obj, docs)
    case MeshDocument =>
      && docs != [] && SameIdentity(obj, docs[0])
      && forall d :: d in docs[1..] ==>
          IsCompanion(d, "MeshMetric") || IsCompanion(d, "MeshPassthrough") || IsCompanion(d, "MeshTLS")
    case ExternalService => |docs| == 1 && IsCompanion(docs[0], "MeshExternalService")
    case OpaPolicy =>
      var renamed := obj[(if StrOr(obj, "kind") != "" then "kind" else "type") := Str("MeshOPA")];
      docs != [] && forall d :: d in docs ==> SameIdentity(renamed, d)
    case Gateway => |docs| == 1 && KindOf(docs[0]) == "Gateway"
    case GatewayInstance => false
    case GatewayRoute =>
      && (docs == [] <==> !HasRouteConf(obj))
      && forall d :: d in docs ==> KindOf(d) == "HTTPRoute" || KindOf(d) == "TCPRoute" || KindOf(d) == "ReferenceGrant"
    case _ => docs == [obj]
  }

  /** A policy and, for the kinds of the rules API, its outbound half. */
  ghost predicate Split(obj: Object, docs: seq<Object>) {
    && (|docs| == 1 || (|docs| == 2 && FixedPoint.RulesKind(KindOf(obj))))
    && forall d :: d in docs ==> SameIdentity(obj, d)
  }

  // ---- the later passes ----------------------------------------------------------

  /** setMissingSystemNamespace and ScanForDeprecations: each document is edited in place. Neither changes what it is,
      and neither adds proxyTypes. */
  ghost predicate Edited(before: seq<Object>, after: seq<Object>) {
    && |before| == |after|
    && forall i :: 0 <= i < |before| ==>
         SameIdentity(before[i], after[i]) && (HasProxyTypes(after[i]) ==> HasProxyTypes(before[i]))
  }

  /** One document of convertInlineOtelEndpointsForV3: itself, followed by the backends generated for it. */
  ghost predicate OtelPart(d: Object, part: seq<Object>) {
    if !OtelBackends.OtelKind(KindOf(d)) then part == [d]
    else
      && part != [] && SameIdentity(d, part[0])
      && forall e :: e in part[1..] ==> IsCompanion(e, "MeshOpenTelemetryBackend")
  }

  /** convertInlineOtelEndpointsForV3. */
  ghost predicate OtelConverted(before: seq<Object>, after: seq<Object>) {
    if before == [] then after == []
    else exists n :: 1 <= n <= |after| && OtelPart(before[0], after[..n]) && OtelConverted(before[1..], after[n..])
  }

  /** splitPanicThresholdDocsForV3: health checks lose a field, their companions come last. */
  ghost predicate PanicSplit(before: seq<Object>, after: seq<Object>) {
    && |before| <= |after|
    && (forall i :: 0 <= i < |before| ==>
          if KindOf(before[i]) == "MeshHealthCheck" then SameIdentity(before[i], after[i]) else after[i] == before[i])
    && (forall i :: |before| <= i < |after| ==> KindOf(after[i]) == "MeshCircuitBreaker")
    && (|before| < |after| ==> exists i :: 0 <= i < |before| && KindOf(before[i]) == "MeshHealthCheck")
  }

  ghost predicate Passes(a: seq<Object>, b: seq<Object>, c: seq<Object>, d: seq<Object>, e: seq<Object>) {
    Edited(a, b) && OtelConverted(b, c) && PanicSplit(c, d) && Edited(d, e)
  }

  function AsDocs(objs: seq<Object>): seq<Doc> {
    seq(|objs|, i requires 0 <= i < |objs| => Some(objs[i]))
  }

  /** TransformDocumentWithOptions under v3, before the rejection check: an error, a Universal gateway resource sent
      back as it is, or the documents of the scenario after all passes. A document that is no object is copied. */
  ghost predicate Produces(doc: Doc, outcome: Outcome) {
    match outcome
    case Failed => true
    case Refused => doc.Some? && Universal(doc.value) && (Detect(doc.value).Gateway? || Detect(doc.value).GatewayRoute?)
    case Converted(results) =>
      if doc.None? then results == [None]
      else
        && !(Universal(doc.value) && (Detect(doc.value).Gateway? || Detect(doc.value).GatewayRoute?))
        && exists a, b, c, d, e :: Transformed(doc.value, a) && Passes(a, b, c, d, e) && results == AsDocs(e)
  }

  // ---- no batch mixes a rejected document with a removed kind -----------------------

  ghost predicate NoneRemoved(docs: seq<Object>) {
    forall i :: 0 <= i < |docs| ==> !RemovedKind(KindOf(docs[i]))
  }

  /** All of a removed kind, and generated: nothing 3.0 has a reason to reject beyond the kind itself. */
  ghost predicate AllRemoved(docs: seq<Object>) {
    forall i :: 0 <= i < |docs| ==> RemovedKind(KindOf(docs[i])) && !HasProxyTypes(docs[i])
  }

  ghost predicate Uniform(docs: seq<Object>) {
    NoneRemoved(docs) || AllRemoved(docs) || |docs| == 1
  }

  lemma KeptKinds()
    ensures forall kind :: OtelBackends.OtelKind(kind) || FixedPoint.RulesKind(kind) ==> !RemovedKind(kind)
  {
  }

  lemma GeneratedKept()
    ensures !RemovedKind("MeshHealthCheck") && !RemovedKind("MeshCircuitBreaker") &&
              !RemovedKind("MeshOpenTelemetryBackend")
    ensures !RemovedKind("MeshMetric") && !RemovedKind("MeshPassthrough") && !RemovedKind("MeshTLS") &&
              !RemovedKind("Mesh")
    ensures !RemovedKind("MeshExternalService") && !RemovedKind("MeshOPA")
    ensures !RemovedKind("Gateway") && !RemovedKind("HTTPRoute") && !RemovedKind("TCPRoute") &&
              !RemovedKind("ReferenceGrant")
  {
  }

  lemma TransformedUniform(obj: Object, docs: seq<Object>)
    requires Transformed(obj, docs)
    ensures Uniform(docs)
  {
    hide RemovedKind, HasProxyTypes, Detect, IsPolicy, IsCompanion, SameIdentity, KindOf, NewKind, LegacyType;
    KeptKinds();
    GeneratedKept();
    match Detect(obj)
    case Legacy => LegacyUniform(NewKind(LegacyType(obj)), docs);
    case Subset => SplitUniform(obj, docs);
    case Rules => SplitUniform(obj, docs);
    case MeshDocument => DetectMesh(obj); MeshUniform(obj, docs);
    case ExternalService =>
    case OpaPolicy =>
      OpaUniform(obj, obj[(if StrOr(obj, "kind") != "" then "kind" else "type") := Str("MeshOPA")], docs);
    case Gateway =>
    case GatewayInstance =>
    case GatewayRoute => assert forall i :: 0 <= i < |docs| ==> docs[i] in docs;
    case Passthrough =>
    case Skipped =>
  }

  lemma LegacyUniform(kind: string, docs: seq<Object>)
    requires forall d :: d in docs ==>
              IsPolicy(d, kind) || (kind == "MeshHealthCheck" && IsPolicy(d, "MeshCircuitBreaker"))
    ensures Uniform(docs)
  {
    hide RemovedKind, HasProxyTypes, IsPolicy, KindOf;
    KeptKinds();
    GeneratedKept();
    forall i | 0 <= i < |docs|
      ensures KindOf(docs[i]) == kind || (kind == "MeshHealthCheck" && KindOf(docs[i]) == "MeshCircuitBreaker")
      ensures !HasProxyTypes(docs[i])
    {
      assert docs[i] in docs;
      if IsPolicy(docs[i], kind) { IsPolicyKind(docs[i], kind); } else { IsPolicyKind(docs[i], "MeshCircuitBreaker"); }
    }
  }

  lemma SplitUniform(obj: Object, docs: seq<Object>)
    requires Split(obj, docs)
    ensures Uniform(docs)
  {
    hide RemovedKind, HasProxyTypes, SameIdentity, KindOf;
    KeptKinds();
    GeneratedKept();
    forall i | 0 <= i < |docs| ensures KindOf(docs[i]) == KindOf(obj) {
      assert docs[i] in docs;
      SameKind(obj, docs[i]);
    }
  }

  lemma MeshUniform(obj: Object, docs: seq<Object>)
    requires KindOf(obj) == "Mesh" && docs != [] && SameIdentity(obj, docs[0])
    requires forall d :: d in docs[1..] ==>
              IsCompanion(d, "MeshMetric") || IsCompanion(d, "MeshPassthrough") || IsCompanion(d, "MeshTLS")
    ensures NoneRemoved(docs)
  {
    hide RemovedKind, IsCompanion, SameIdentity, KindOf;
    SameKind(obj, docs[0]);
    GeneratedKept();
    forall i | 1 <= i < |docs| ensures !RemovedKind(KindOf(docs[i])) {
      assert docs[i] == docs[1..][i - 1];
      MeshCompanionKept(docs[i]);
    }
  }

  lemma MeshCompanionKept(d: Object)
    requires IsCompanion(d, "MeshMetric") || IsCompanion(d, "MeshPassthrough") || IsCompanion(d, "MeshTLS")
    ensures !RemovedKind(KindOf(d))
  {
    hide RemovedKind, IsCompanion, KindOf;
    GeneratedKept();
    if IsCompanion(d, "MeshMetric") { IsCompanionKind(d, "MeshMetric"); }
    else if IsCompanion(d, "MeshPassthrough") { IsCompanionKind(d, "MeshPassthrough"); }
    else { IsCompanionKind(d, "MeshTLS"); }
  }

  lemma DetectMesh(obj: Object)
    requires Detect(obj) == MeshDocument
    ensures KindOf(obj) == "Mesh"
  {
    hide NeedsSubset, SomeItem, Tagged;
  }

  lemma OpaUniform(obj: Object, renamed: Object, docs: seq<Object>)
    requires renamed == obj[(if StrOr(obj, "kind") != "" then "kind" else "type") := Str("MeshOPA")]
    requires forall d :: d in docs ==> SameIdentity(renamed, d)
    ensures NoneRemoved(docs)
  {
    hide RemovedKind, SameIdentity;
    KeptKinds();
    GeneratedKept();
    assert KindOf(renamed) == "MeshOPA";
    forall i | 0 <= i < |docs| ensures !RemovedKind(KindOf(docs[i])) {
      assert docs[i] in docs;
      SameKind(renamed, docs[i]);
    }
  }

  lemma EditedUniform(before: seq<Object>, after: seq<Object>)
    requires Uniform(before) && Edited(before, after)
    ensures Uniform(after)
  {
    hide RemovedKind, HasProxyTypes, SameIdentity, KindOf;
    forall i | 0 <= i < |before| ensures KindOf(after[i]) == KindOf(before[i]) { SameKind(before[i], after[i]); }
  }

  lemma OtelUniform(before: seq<Object>, after: seq<Object>)
    requires Uniform(before) && OtelConverted(before, after)
    ensures Uniform(after)
  {
    hide RemovedKind, HasProxyTypes, OtelBackends.OtelKind, KindOf, OtelConverted;
    KeptKinds();
    if exists i :: 0 <= i < |before| && OtelBackends.OtelKind(KindOf(before[i])) {
      OtelNoneRemoved(before, after);
      NoneRemovedUniform(after);
    } else {
      OtelIdle(before, after);
    }
  }

  lemma {:induction false} OtelNoneRemoved(before: seq<Object>, after: seq<Object>)
    requires NoneRemoved(before) && OtelConverted(before, after)
    ensures NoneRemoved(after)
    decreases |before|
  {
    hide RemovedKind, KindOf, OtelPart;
    if before != [] {
      var n :| 1 <= n <= |after| && OtelPart(before[0], after[..n]) && OtelConverted(before[1..], after[n..]);
      OtelNoneRemoved(before[1..], after[n..]);
      PartNoneRemoved(before[0], after[..n]);
      forall i | 0 <= i < |after| ensures !RemovedKind(KindOf(after[i])) {
        assert after[i] == if i < n then after[..n][i] else after[n..][i - n];
      }
    }
  }

  lemma PartNoneRemoved(d: Object, part: seq<Object>)
    requires !RemovedKind(KindOf(d)) && OtelPart(d, part)
    ensures NoneRemoved(part)
  {
    hide RemovedKind, KindOf, IsCompanion, SameIdentity, OtelBackends.OtelKind;
    KeptKinds();
    GeneratedKept();
    if OtelBackends.OtelKind(KindOf(d)) {
      SameKind(d, part[0]);
      forall i | 1 <= i < |part| ensures !RemovedKind(KindOf(part[i])) {
        assert part[i] == part[1..][i - 1];
        IsCompanionKind(part[i], "MeshOpenTelemetryBackend");
      }
    }
  }

  lemma {:induction false} OtelIdle(before: seq<Object>, after: seq<Object>)
    requires OtelConverted(before, after) && forall i :: 0 <= i < |before| ==> !OtelBackends.OtelKind(KindOf(before[i]))
    ensures after == before
    decreases |before|
  {
    hide OtelBackends.OtelKind, KindOf;
    if before != [] {
      var n :| 1 <= n <= |after| && OtelPart(before[0], after[..n]) && OtelConverted(before[1..], after[n..]);
      OtelIdle(before[1..], after[n..]);
      assert after == after[..n] + after[n..];
    }
  }

  lemma PanicUniform(before: seq<Object>, after: seq<Object>)
    requires Uniform(before) && PanicSplit(before, after)
    ensures Uniform(after)
  {
    hide RemovedKind, HasProxyTypes, SameIdentity, KindOf, Uniform;
    HealthCheckKept();
    forall i | 0 <= i < |before| ensures KindOf(after[i]) == KindOf(before[i]) {
      if KindOf(before[i]) == "MeshHealthCheck" { SameKind(before[i], after[i]); }
    }
    if exists i :: 0 <= i < |before| && KindOf(before[i]) == "MeshHealthCheck" {
      HealthChecksUniform(before);
      assert NoneRemoved(after);
      NoneRemovedUniform(after);
    } else {
      assert after == before;
    }
  }

  lemma HealthCheckKept()
    ensures !RemovedKind("MeshHealthCheck") && !RemovedKind("MeshCircuitBreaker")
  {
  }

  lemma NoneRemovedUniform(docs: seq<Object>)
    requires NoneRemoved(docs)
    ensures Uniform(docs)
  {
    hide NoneRemoved, AllRemoved;
  }

  lemma HealthChecksUniform(docs: seq<Object>)
    requires Uniform(docs) && exists i :: 0 <= i < |docs| && KindOf(docs[i]) == "MeshHealthCheck"
    ensures NoneRemoved(docs)
  {
    hide RemovedKind, HasProxyTypes, KindOf;
    HealthCheckKept();
  }

  /** No batch that comes back from a conversion mixes removed kinds with others. */
  lemma ResultsUniform(doc: Doc, results: seq<Doc>)
    requires Produces(doc, Converted(results)) && doc.Some?
    ensures exists objs :: results == AsDocs(objs) && Uniform(objs)
  {
    hide Transformed, Edited, OtelConverted, PanicSplit, Uniform, Detect;
    var a, b, c, d, e :| Transformed(doc.value, a) && Passes(a, b, c, d, e) && results == AsDocs(e);
    TransformedUniform(doc.value, a);
    EditedUniform(a, b);
    OtelUniform(b, c);
    PanicUniform(c, d);
    EditedUniform(d, e);
  }

  /** The only thing 3.0 has against a document of a removed kind, but for its kind, is a proxyTypes filter. */
  lemma RemovedNotRejected(obj: Object)
    requires RemovedKind(KindOf(obj)) && !HasProxyTypes(obj)
    ensures !Rejected(obj)
  {
    hide DefaultGatewayTimeout, BadTo, NamesSomething, FlatSource, Outbounds, TaggedOutbound;
    RemovedNotChecked(KindOf(obj));
  }

  /** Removed kinds that start like the policies go on with a G, and no checked policy does. */
  lemma RemovedNotChecked(kind: string)
    requires RemovedKind(kind)
    ensures kind != "Dataplane" && kind != "MeshService" && kind != "MeshExternalService"
    ensures !FromRemoved(kind) && !TopLevelChecked(kind)
  {
    hide TO_KINDS;
    RemovedInitials(kind);
    if kind in TO_KINDS { CheckedInitials(kind); }
  }

  lemma RemovedInitials(kind: string)
    requires RemovedKind(kind)
    ensures |kind| > 4 && (kind[0] != 'M' || kind[4] == 'G') && kind != "Dataplane"
  {
  }

  lemma CheckedInitials(kind: string)
    requires kind in TO_KINDS
    ensures |kind| > 4 && kind[0] == 'M' && kind[4] != 'G'
  {
    hide REAL_TO;
  }

  /** No removed kind ever reaches the apply tree, over any files and any mix of success, partial rejection and
      failure. */
  lemma {:induction false} NoRemovedKindApplied(xs: seq<Input>, d: Doc)
    requires forall i :: 0 <= i < |xs| ==> Produces(xs[i].doc, xs[i].outcome)
    requires d in Select(AllRouted(xs, true), false)
    ensures !Removed(d)
  {
    hide Removed, DocRejected, HoldsRejected, Routed, Produces;
    SelectedFrom(AllRouted(xs, true), false, d);
    RoutedFrom(xs, true, Output(d, false));
    var i :| 0 <= i < |xs| && Output(d, false) in Routed(xs[i], true);
    if Removed(d) {
      RemovedRouted(xs[i], d);
      NeverMixed(xs[i], d);
    }
  }

  lemma NeverMixed(x: Input, d: Doc)
    requires Produces(x.doc, x.outcome)
    ensures !MixedBatch(x, d)
  {
    hide Rejected, RemovedKind, Uniform, HasProxyTypes, GatewayTimeoutDoc, KindOf;
    if MixedBatch(x, d) && x.doc.Some? {
      var results := x.outcome.results;
      ResultsUniform(x.doc, results);
      var objs :| results == AsDocs(objs) && Uniform(objs);
      MixedIsNotUniform(objs, d);
    }
  }

  lemma MixedIsNotUniform(objs: seq<Object>, d: Doc)
    requires Uniform(objs)
    ensures !(HoldsRejected(AsDocs(objs)) && d in AsDocs(objs) && Removed(d) && !DocRejected(d))
  {
    hide Rejected, RemovedKind, HasProxyTypes, KindOf, IsKuma;
    if HoldsRejected(AsDocs(objs)) && d in AsDocs(objs) && Removed(d) && !DocRejected(d) {
      var i :| 0 <= i < |objs| && DocRejected(AsDocs(objs)[i]);
      var j :| 0 <= j < |objs| && AsDocs(objs)[j] == d;
      assert Rejected(objs[i]) && RemovedKind(KindOf(objs[j]));
      if AllRemoved(objs) { RemovedNotRejected(objs[i]); }
    }
  }

  // ---- nothing vanishes, but for a route without a section --------------------------

  lemma TransformedEmpty(obj: Object, docs: seq<Object>)
    requires Transformed(obj, docs)
    ensures docs == [] <==> Detect(obj) == GatewayRoute && !HasRouteConf(obj)
  {
    hide Detect, HasRouteConf, IsPolicy, IsCompanion, SameIdentity, NewKind, LegacyType;
  }

  lemma {:induction false} OtelEmpty(before: seq<Object>, after: seq<Object>)
    requires OtelConverted(before, after)
    ensures after == [] <==> before == []
  {
    hide OtelPart;
  }

  lemma PanicEmpty(before: seq<Object>, after: seq<Object>)
    requires PanicSplit(before, after)
    ensures after == [] <==> before == []
  {
    hide KindOf, SameIdentity;
  }

  /** A document that is not skip-listed leaves at least one document in the apply tree or the manual tree, with one
      exception: a Kubernetes MeshGatewayRoute with neither an http nor a tcp section, whose conversion succeeds
      without a result. */
  lemma {:induction false} LeavesADocument(x: Input)
    requires !x.skipped && Produces(x.doc, x.outcome)
    ensures Routed(x, true) == [] <==>
              x.outcome.Converted? && x.doc.Some? && Detect(x.doc.value) == GatewayRoute && !HasRouteConf(x.doc.value)
  {
    hide DefaultGatewayTimeout, Rejected, RemovedKind, Detect, HasRouteConf, Transformed, KindOf, HasProxyTypes;
    if x.outcome.Converted? {
      NoTimeoutRoute(x.doc);
      if x.doc.Some? {
        var a, b, c, d, e :|
          Transformed(x.doc.value, a) && Passes(a, b, c, d, e) && x.outcome.results == AsDocs(e);
        TransformedEmpty(x.doc.value, a);
        OtelEmpty(b, c);
        PanicEmpty(c, d);
      }
    }
  }

  /** The default gateway timeout is a policy, not a route. */
  lemma NoTimeoutRoute(d: Doc)
    ensures d.Some? && Detect(d.value) == GatewayRoute ==> !GatewayTimeoutDoc(d)
  {
    hide GatewayOnly, NeedsSubset, SomeItem, Tagged, NameOf;
  }

  /** The exception occurs. */
  lemma RouteWithoutSection(obj: Object)
    requires Detect(obj) == GatewayRoute && !Universal(obj) && !HasRouteConf(obj)
    ensures Produces(Some(obj), Converted([])) && Routed(Input(Some(obj), false, Converted([])), true) == []
  {
    hide Detect, HasRouteConf, Universal, DefaultGatewayTimeout;
    var none: seq<Object> := [];
    NoTimeoutRoute(Some(obj));
    assert Transformed(obj, none) && Passes(none, none, none, none, none) && AsDocs(none) == [];
  }

  /** For example, a document of a removed kind that nothing converts comes back as it is, and goes to the manual
      tree. */
  lemma UnconvertedIsManual(obj: Object)
    requires Detect(obj) == Passthrough || Detect(obj) == Skipped
    requires RemovedKind(KindOf(obj))
    ensures var x := Input(Some(obj), false, Converted([Some(obj)]));
      Produces(x.doc, x.outcome) && Output(Some(obj), true) in Routed(x, true)
  {
    hide Detect, RemovedKind, DefaultGatewayTimeout, Rejected, KindOf, HasProxyTypes, Transformed, Passes;
    KeptKinds();
    GeneratedKept();
    UntouchedPasses(obj);
    assert AsDocs([obj]) == [Some(obj)];
    var x := Input(Some(obj), false, Converted([Some(obj)]));
    RemovedIsNoTimeout(obj);
    assert Routed(x, true)[0] == Output(Some(obj), true);
  }

  lemma UntouchedPasses(obj: Object)
    requires Detect(obj) == Passthrough || Detect(obj) == Skipped
    requires !OtelBackends.OtelKind(KindOf(obj)) && KindOf(obj) != "MeshHealthCheck"
    ensures Transformed(obj, [obj]) && Passes([obj], [obj], [obj], [obj], [obj])
  {
    hide Detect, KindOf, HasProxyTypes, OtelBackends.OtelKind;
    var docs := [obj];
    assert docs[..1] == docs && docs[1..] == [];
    assert OtelPart(docs[0], docs[..1]) && OtelConverted(docs[1..], docs[1..]);
    assert OtelConverted(docs, docs);
  }

  lemma RemovedIsNoTimeout(obj: Object)
    requires RemovedKind(KindOf(obj))
    ensures !DefaultGatewayTimeout(obj)
  {
    hide GatewayOnly, NameOf, KindOf;
  }
}
