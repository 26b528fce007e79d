/** Which converted documents may be applied (rejected.go) and where processFile puts them (migrator.go). */
module ApplyTree {
  import opened Text
  import opened Json
  import opened LabelRefs

  type Kinds = set<string>

  /** isKumaResource. */
  predicate IsKuma(obj: Object) {
    if StrAt(obj, "apiVersion").Some? then "kuma.io/" <= StrOr(obj, "apiVersion") else StrAt(obj, "type").Some?
  }

  // ---- the 3.0 rules -----------------------------------------------------------

  const REAL_TO: Kinds := {"Mesh", "MeshService", "MeshExternalService", "MeshMultiZoneService"}

  /** v3ToTargetRefKinds: the to[] kinds each policy's validator accepts. */
  const TO_KINDS: map<string, Kinds> := map[
    "MeshAccessLog" := REAL_TO + {"MeshHTTPRoute"},
    "MeshCircuitBreaker" := REAL_TO,
    "MeshFaultInjection" := {"Mesh"},
    "MeshHealthCheck" := REAL_TO,
    "MeshHTTPRoute" := REAL_TO - {"Mesh"},
    "MeshLoadBalancingStrategy" := REAL_TO + {"MeshHTTPRoute"},
    "MeshMetric" := {},
    "MeshPassthrough" := {},
    "MeshProxyPatch" := {},
    "MeshRateLimit" := {"Mesh"},
    "MeshRetry" := REAL_TO + {"MeshHTTPRoute"},
    "MeshTCPRoute" := REAL_TO - {"Mesh"},
    "MeshTimeout" := REAL_TO + {"MeshHTTPRoute"},
    "MeshTLS" := {},
    "MeshTrace" := {},
    "MeshTrafficPermission" := {}]

  predicate TopLevelChecked(kind: string) {
    kind in TO_KINDS || kind == "MeshOPA"
  }

  /** The targetRef of a to[] item, when it has one. */
  function ItemRef(item: Value): Option<Object> {
    ObjAt(Fields(item), "targetRef")
  }

  predicate BadTopKind(spec: Object) {
    ObjAt(spec, "targetRef").Some? && StrOr(Sub(spec, "targetRef"), "kind") !in {"", "Mesh", "Dataplane"}
  }

  predicate NamesSomething(spec: Object) {
    || (ObjAt(spec, "targetRef").Some? && NamedRef(Sub(spec, "targetRef")))
    || exists i :: 0 <= i < |ArrAt(spec, "to")| && ItemRef(ArrAt(spec, "to")[i]).Some?
                && NamedRef(ItemRef(ArrAt(spec, "to")[i]).value)
  }

  predicate MeshOnlyTo(kind: string) {
    kind == "MeshFaultInjection" || kind == "MeshRateLimit"
  }

  predicate BadItemKind(kind: string, item: Value)
    requires kind in TO_KINDS
  {
    item.Obj? && StrOr(Sub(item.fields, "targetRef"), "kind") != "" &&
        StrOr(Sub(item.fields, "targetRef"), "kind") !in TO_KINDS[kind]
  }

  predicate BadTo(kind: string, spec: Object) {
    kind in TO_KINDS && ArrAt(spec, "to") != []
    && (|| TO_KINDS[kind] == {}
        || (MeshOnlyTo(kind) && StrOr(Sub(spec, "targetRef"), "kind") !in {"", "Mesh"})
        || exists i :: 0 <= i < |ArrAt(spec, "to")| && BadItemKind(kind, ArrAt(spec, "to")[i]))
  }

  predicate TaggedOutbound(v: Value) {
    "tags" in Fields(v) && "backendRef" !in Fields(v)
  }

  function Outbounds(obj: Object): seq<Value> {
    var net := if ObjAt(obj, "networking").Some? then Sub(obj, "networking") else Sub(Sub(obj, "spec"), "networking");
    ArrAt(net, "outbound")
  }

  /** mesTLSVerification: spec.tls.verification, or the tls block at the root. */
  function Verification(obj: Object): Object {
    Sub(if ObjAt(obj, "tls").Some? then Sub(obj, "tls") else Sub(Sub(obj, "spec"), "tls"), "verification")
  }

  const DATA_SOURCES := ["caCert", "clientCert", "clientKey"]

  /** A data source in the flat shape that 3.0 removes. */
  predicate FlatSource(verification: Object, field: string) {
    ObjAt(verification, field).Some?
    && var ds := Sub(verification, field);
       "type" !in ds && ("inline" in ds || "inlineString" in ds || "secret" in ds)
  }

  predicate Unconverted(obj: Object) {
    || (KindOf(obj) == "Dataplane" && exists i :: 0 <= i < |Outbounds(obj)| && TaggedOutbound(Outbounds(obj)[i]))
    || (KindOf(obj) == "MeshService" && "dataplaneTags" in Sub(Sub(obj, "spec"), "selector"))
    || (KindOf(obj) == "MeshExternalService"
        && exists i :: 0 <= i < |DATA_SOURCES| && FlatSource(Verification(obj), DATA_SOURCES[i]))
  }

  // ---- proxyTypes --------------------------------------------------------------

  function TopRef(obj: Object): Object {
    Sub(Sub(obj, "spec"), "targetRef")
  }

  predicate HasProxyTypes(obj: Object) {
    "proxyTypes" in TopRef(obj)
  }

  /** A filter that 2.x honours and that keeps the policy off sidecars. */
  predicate GatewayOnly(obj: Object) {
    && HasProxyTypes(obj) && StrOr(TopRef(obj), "kind") in {"", "Mesh", "MeshSubset"}
    && Str("Gateway") in ArrAt(TopRef(obj), "proxyTypes") && Str("Sidecar") !in ArrAt(TopRef(obj), "proxyTypes")
  }

  /** isDefaultGatewayMeshTimeout: the gateway timeout that 2.x creates for every mesh. */
  predicate DefaultGatewayTimeout(obj: Object) {
    KindOf(obj) == "MeshTimeout" && "mesh-gateways-timeout-all-" <= NameOf(obj) && GatewayOnly(obj)
  }

  predicate FromRemoved(kind: string) {
    kind == "MeshTrafficPermission" || kind == "MeshFaultInjection"
  }

  /** v3RejectionReasons gives a reason. */
  predicate Rejected(obj: Object) {
    || Unconverted(obj) || ("Mesh" <= KindOf(obj) && GatewayOnly(obj) && !DefaultGatewayTimeout(obj))
    || (ObjAt(obj, "spec").Some?
        && var kind, spec := KindOf(obj), Sub(obj, "spec");
           || (FromRemoved(kind) && ArrAt(spec, "from") != [])
           || (TopLevelChecked(kind) && (BadTopKind(spec) || NamesSomething(spec) || BadTo(kind, spec))))
  }

  datatype Reason =
    | TaggedOutboundAt(i: nat) | DataplaneTags | FlatSourceAt(field: string) | ProxyTypes | From
    | TopKind(kind: string) | NamedTop | NamedItem(i: nat)
    | NoToList | ToNeedsMesh | ItemKind(i: nat)

  /** warnV3ToTargetRefKinds. */
  method ToKindReasons(kind: string, spec: Object) returns (reasons: seq<Reason>)
    ensures reasons != [] <==> BadTo(kind, spec)
  {
    var to := ArrAt(spec, "to");
    if kind !in TO_KINDS || |to| == 0 { return []; }
    var allowed := TO_KINDS[kind];
    if allowed == {} { return [NoToList]; }
    if MeshOnlyTo(kind) && StrOr(Sub(spec, "targetRef"), "kind") !in {"", "Mesh"} { return [ToNeedsMesh]; }
    hide TO_KINDS;
    reasons := [];
    for i := 0 to |to|
      invariant reasons != [] <==> exists j :: 0 <= j < i && BadItemKind(kind, to[j])
    {
      if !to[i].Obj? { continue; }
      var k := StrOr(Sub(to[i].fields, "targetRef"), "kind");
      if k == "" || k in allowed { continue; }
      assert BadItemKind(kind, to[i]);
      reasons := reasons + [ItemKind(i)];
    }
  }

  /** v3UnconvertedFieldReasons. */
  method UnconvertedReasons(obj: Object) returns (reasons: seq<Reason>)
    ensures reasons != [] <==> Unconverted(obj)
  {
    hide FlatSource, Outbounds, TaggedOutbound;
    reasons := [];
    if KindOf(obj) == "Dataplane" {
      var outs := Outbounds(obj);
      for i := 0 to |outs|
        invariant reasons != [] <==> exists j :: 0 <= j < i && TaggedOutbound(outs[j])
      {
        if TaggedOutbound(outs[i]) { reasons := reasons + [TaggedOutboundAt(i)]; }
      }
    } else if KindOf(obj) == "MeshService" && "dataplaneTags" in Sub(Sub(obj, "spec"), "selector") {
      reasons := [DataplaneTags];
    } else if KindOf(obj) == "MeshExternalService" {
      var verification := Verification(obj);
      for i := 0 to |DATA_SOURCES|
        invariant reasons != [] <==> exists j :: 0 <= j < i && FlatSource(verification, DATA_SOURCES[j])
      {
        if FlatSource(verification, DATA_SOURCES[i]) { reasons := reasons + [FlatSourceAt(DATA_SOURCES[i])]; }
      }
    }
  }

  method NamedRefReasons(spec: Object) returns (reasons: seq<Reason>)
    ensures reasons != [] <==> NamesSomething(spec)
  {
    reasons := [];
    if ObjAt(spec, "targetRef").Some? && NamedRef(Sub(spec, "targetRef")) { reasons := [NamedTop]; }
    ghost var top := reasons;
    var to := ArrAt(spec, "to");
    for i := 0 to |to|
      invariant reasons != [] <==>
        top != [] || exists j :: 0 <= j < i && ItemRef(to[j]).Some? && NamedRef(ItemRef(to[j]).value)
    {
      var ref := ItemRef(to[i]);
      if ref.Some? && NamedRef(ref.value) { reasons := reasons + [NamedItem(i)]; }
    }
  }

  /** v3RejectionReasons. */
  method RejectionReasons(obj: Object) returns (reasons: seq<Reason>)
    ensures reasons != [] <==> Rejected(obj)
  {
    hide Unconverted, BadTo, NamesSomething, TopLevelChecked, GatewayOnly, DefaultGatewayTimeout;
    reasons := UnconvertedReasons(obj);
    if "Mesh" <= KindOf(obj) && GatewayOnly(obj) && !DefaultGatewayTimeout(obj) { reasons := reasons + [ProxyTypes]; }
    if ObjAt(obj, "spec").None? { return; }
    var kind, spec := KindOf(obj), Sub(obj, "spec");
    if FromRemoved(kind) && |ArrAt(spec, "from")| > 0 { reasons := reasons + [From]; }
    if !TopLevelChecked(kind) { return; }
    if BadTopKind(spec) { reasons := reasons + [TopKind(StrOr(Sub(spec, "targetRef"), "kind"))]; }
    var named := NamedRefReasons(spec);
    var kinds := ToKindReasons(kind, spec);
    reasons := reasons + named + kinds;
  }

  // ---- routing a file ------------------------------------------------------------

  /** A document as written: its fields when it parses. */
  type Doc = Option<Object>

  predicate DocRejected(d: Doc) {
    d.Some? && IsKuma(d.value) && Rejected(d.value)
  }

  /** rejectedByTarget: the positions of the documents a 3.0 control plane rejects. */
  method RejectedByTarget(docs: seq<Doc>, v3: bool) returns (rejected: set<nat>)
    ensures rejected == set i: nat | i < |docs| && v3 && DocRejected(docs[i])
  {
    hide Rejected;
    rejected := {};
    if !v3 { return; }
    for i := 0 to |docs|
      invariant rejected == set j: nat | j < i && DocRejected(docs[j])
    {
      if docs[i].None? || !IsKuma(docs[i].value) { continue; }
      var reasons := RejectionReasons(docs[i].value);
      if |reasons| > 0 { rejected := rejected + {i}; }
    }
  }

  /** removedInV3SourceKinds. */
  predicate RemovedKind(kind: string) {
    kind in {"TrafficPermission", "TrafficRoute", "TrafficLog", "TrafficTrace", "HealthCheck", "CircuitBreaker",
             "Retry", "Timeout", "RateLimit", "FaultInjection", "VirtualOutbound", "ProxyTemplate",
             "ExternalService", "MeshGateway", "MeshGatewayRoute", "MeshGatewayInstance", "MeshGatewayConfig",
             "ZoneIngress", "ZoneEgress", "OPAPolicy", "MeshGlobalRateLimit"}
  }

  predicate Removed(d: Doc) {
    d.Some? && RemovedKind(KindOf(d.value))
  }

  /** What the conversion of a document produced, before the rejection check. */
  datatype Outcome =
    | Failed
    | Refused  // a Universal gateway resource: returned as it is, and rejected
    | Converted(results: seq<Doc>)

  /** One input document: skip-listed or not, and its conversion. */
  datatype Input = Input(doc: Doc, skipped: bool, outcome: Outcome)

  predicate GatewayTimeoutDoc(d: Doc) {
    d.Some? && DefaultGatewayTimeout(d.value)
  }

  datatype Output = Output(doc: Doc, manual: bool)

  predicate HoldsRejected(results: seq<Doc>) {
    exists i :: 0 <= i < |results| && DocRejected(results[i])
  }

  /** The documents processFile writes for one input, and whether each goes to the manual tree. */
  function Routed(x: Input, v3: bool): seq<Output> {
    if x.skipped then []
    else if v3 && GatewayTimeoutDoc(x.doc) then [Output(x.doc, true)]
    else if !x.outcome.Converted? then [Output(x.doc, true)]
    else
      var results := x.outcome.results;
      if v3 && HoldsRejected(results) then
        seq(|results|, i requires 0 <= i < |results| => Output(results[i], DocRejected(results[i])))
      else seq(|results|, i requires 0 <= i < |results| => Output(results[i], v3 && Removed(results[i])))
  }

  /** The conversion of this document counts as an error. */
  predicate Errs(x: Input, v3: bool) {
    !x.skipped && !(v3 && GatewayTimeoutDoc(x.doc)) &&
        (!x.outcome.Converted? || (v3 && HoldsRejected(x.outcome.results)))
  }

  method RouteDocument(x: Input, v3: bool) returns (out: seq<Output>, failed: bool)
    ensures out == Routed(x, v3) && failed == Errs(x, v3)
  {
    hide Rejected, RemovedKind, DefaultGatewayTimeout;
    if x.skipped { return [], false; }
    var rejected: set<nat> := {};
    if x.outcome.Converted? { rejected := RejectedByTarget(x.outcome.results, v3); }
    if v3 && GatewayTimeoutDoc(x.doc) { return [Output(x.doc, true)], false; }
    if !x.outcome.Converted? { return [Output(x.doc, true)], true; }
    var results := x.outcome.results;
    out := [];
    if rejected != {} {
      var r :| r in rejected;
      for i := 0 to |results|
        invariant |out| == i && forall j :: 0 <= j < i ==> out[j] == Output(results[j], DocRejected(results[j]))
      {
        out := out + [Output(results[i], i in rejected)];
      }
      failed := true;
    } else {
      assert v3 ==> forall i: nat :: i < |results| && DocRejected(results[i]) ==> i in rejected;
      for i := 0 to |results|
        invariant |out| == i && forall j :: 0 <= j < i ==> out[j] == Output(results[j], v3 && Removed(results[j]))
      {
        out := out + [Output(results[i], v3 && Removed(results[i]))];
      }
      failed := false;
    }
    assert out == Routed(x, v3);
  }

  function AllRouted(xs: seq<Input>, v3: bool): seq<Output> {
    if xs == [] then [] else AllRouted(xs[..|xs| - 1], v3) + Routed(xs[|xs| - 1], v3)
  }

  function Select(outs: seq<Output>, manual: bool): seq<Doc> {
    if outs == [] then []
    else
      var rest, last := Select(outs[..|outs| - 1], manual), outs[|outs| - 1];
      if last.manual == manual then rest + [last.doc] else rest
  }

  function Docs(outs: seq<Output>): seq<Doc> {
    seq(|outs|, i requires 0 <= i < |outs| => outs[i].doc)
  }

  /** FileReport, as far as it says where documents went. */
  class FileReport {
    var apply: seq<Doc>
    var manual: seq<Doc>
    var hasError: bool

    constructor ()
      ensures apply == [] && manual == [] && !hasError
    {
      apply, manual, hasError := [], [], false;
    }

    /** processFile: conversion outcomes are routed document by document, then each document is written. */
    method ProcessFile(xs: seq<Input>, v3: bool) returns (written: seq<Doc>)
      requires apply == [] && manual == [] && !hasError
      modifies this
      ensures apply == Select(AllRouted(xs, v3), false) && manual == Select(AllRouted(xs, v3), true)
      ensures written == Docs(AllRouted(xs, v3)) && multiset(written) == multiset(apply) + multiset(manual)
      ensures hasError <==> exists i :: 0 <= i < |xs| && Errs(xs[i], v3)
    {
      hide Routed, Errs;
      var outs := [];
      for i := 0 to |xs|
        invariant outs == AllRouted(xs[..i], v3)
        invariant apply == [] && manual == []
        invariant hasError <==> exists j :: 0 <= j < i && Errs(xs[j], v3)
      {
        assert xs[..i + 1][..i] == xs[..i];
        var more, failed := RouteDocument(xs[i], v3);
        outs := outs + more;
        if failed { hasError := true; }
      }
      assert xs[..|xs|] == xs;
      written := WriteDocuments(outs);
    }

    method WriteDocuments(outs: seq<Output>) returns (written: seq<Doc>)
      requires apply == [] && manual == []
      modifies this`apply, this`manual
      ensures apply == Select(outs, false) && manual == Select(outs, true)
      ensures written == Docs(outs) && multiset(written) == multiset(apply) + multiset(manual)
    {
      written := [];
      for i := 0 to |outs|
        invariant apply == Select(outs[..i], false) && manual == Select(outs[..i], true)
        invariant written == Docs(outs[..i]) && multiset(written) == multiset(apply) + multiset(manual)
      {
        assert outs[..i + 1][..i] == outs[..i];
        if outs[i].manual { manual := manual + [outs[i].doc]; } else { apply := apply + [outs[i].doc]; }
        written := written + [outs[i].doc];
      }
      assert outs[..|outs|] == outs;
    }
  }

  // ---- where documents go ----------------------------------------------------------

  lemma {:induction false} SelectedFrom(outs: seq<Output>, manual: bool, d: Doc)
    ensures d in Select(outs, manual) <==> Output(d, manual) in outs
  {
    if outs != [] {
      SelectedFrom(outs[..|outs| - 1], manual, d);
      assert outs == outs[..|outs| - 1] + [outs[|outs| - 1]];
    }
  }

  lemma {:induction false} RoutedFrom(xs: seq<Input>, v3: bool, o: Output)
    ensures o in AllRouted(xs, v3) <==> exists i :: 0 <= i < |xs| && o in Routed(xs[i], v3)
  {
    hide Routed;
    if xs != [] {
      var n := |xs| - 1;
      RoutedFrom(xs[..n], v3, o);
      if i :| 0 <= i < n && o in Routed(xs[..n][i], v3) { assert xs[i] == xs[..n][i]; }
      if i :| 0 <= i < |xs| && o in Routed(xs[i], v3) { if i < n { assert xs[..n][i] == xs[i]; } }
    }
  }

  /** A Kuma resource by its group, or in the Universal format by having a type and no group. */
  predicate OfKuma(obj: Object) {
    if "apiVersion" in obj && obj["apiVersion"].Str? then "kuma.io/" <= obj["apiVersion"].s
    else "type" in obj && obj["type"].Str?
  }

  /** The policy is filtered to gateway proxies, where 2.x looks at the filter. */
  predicate ForGateways(obj: Object) {
    var ref := Sub(Sub(obj, "spec"), "targetRef");
    && "proxyTypes" in ref && (StrAt(ref, "kind").None? || ref["kind"].s in {"", "Mesh", "MeshSubset"})
    && Str("Gateway") in ArrAt(ref, "proxyTypes") && Str("Sidecar") !in ArrAt(ref, "proxyTypes")
  }

  /** A document that 3.0 rejects. */
  predicate Unacceptable(d: Doc) {
    d.Some? && OfKuma(d.value) && Rejected(d.value)
  }

  /** The gateway timeout 2.x creates for every mesh, which 3.0 does not need. */
  predicate NotNeeded(d: Doc) {
    && d.Some? && KindOf(d.value) == "MeshTimeout" && "mesh-gateways-timeout-all-" <= NameOf(d.value)
    && ForGateways(d.value)
  }

  ghost predicate SomeUnacceptable(results: seq<Doc>) {
    exists d :: d in results && Unacceptable(d)
  }

  /** The document is a result of a successful conversion. */
  ghost predicate ResultOf(x: Input, v3: bool, d: Doc) {
    !x.skipped && !(v3 && NotNeeded(x.doc)) && x.outcome.Converted? && d in x.outcome.results
  }

  /** The results to apply: on 2.x all of them; on 3.0 those that are not rejected, and of removed kinds only those that
      came with a rejected document. */
  ghost predicate Applied(x: Input, v3: bool, d: Doc) {
    ResultOf(x, v3, d) && (v3 ==> !Unacceptable(d) && (Removed(d) ==> SomeUnacceptable(x.outcome.results)))
  }

  /** What is left to a human: a document that did not convert, a default gateway timeout on 3.0, and on 3.0 the results
      that are rejected, or of a removed kind in a batch without a rejected one. */
  ghost predicate Held(x: Input, v3: bool, d: Doc) {
    && !x.skipped
    && (|| (d == x.doc && ((v3 && NotNeeded(d)) || !x.outcome.Converted?))
        || (v3 && ResultOf(x, v3, d) && (Unacceptable(d) || (Removed(d) && !SomeUnacceptable(x.outcome.results)))))
  }

  /** The apply tree holds exactly the results to apply, over all files. */
  lemma AppliedExactly(xs: seq<Input>, v3: bool, d: Doc)
    ensures d in Select(AllRouted(xs, v3), false) <==> exists i :: 0 <= i < |xs| && Applied(xs[i], v3, d)
  {
    hide Routed, Applied;
    SelectedFrom(AllRouted(xs, v3), false, d);
    RoutedFrom(xs, v3, Output(d, false));
    forall i | 0 <= i < |xs| ensures Output(d, false) in Routed(xs[i], v3) <==> Applied(xs[i], v3, d) {
      RoutedWhere(xs[i], v3, d);
    }
  }

  /** The manual tree holds exactly what is left to a human. */
  lemma ManualExactly(xs: seq<Input>, v3: bool, d: Doc)
    ensures d in Select(AllRouted(xs, v3), true) <==> exists i :: 0 <= i < |xs| && Held(xs[i], v3, d)
  {
    hide Routed, Held;
    SelectedFrom(AllRouted(xs, v3), true, d);
    RoutedFrom(xs, v3, Output(d, true));
    forall i | 0 <= i < |xs| ensures Output(d, true) in Routed(xs[i], v3) <==> Held(xs[i], v3, d) {
      RoutedWhere(xs[i], v3, d);
    }
  }

  lemma SameVerdicts(d: Doc)
    ensures DocRejected(d) <==> Unacceptable(d)
    ensures GatewayTimeoutDoc(d) <==> NotNeeded(d)
  {
    hide Rejected, NameOf;
  }

  lemma SomeRejected(results: seq<Doc>)
    ensures HoldsRejected(results) <==> SomeUnacceptable(results)
  {
    hide DocRejected, Unacceptable;
    forall d | d in results ensures DocRejected(d) <==> Unacceptable(d) { SameVerdicts(d); }
    if i :| 0 <= i < |results| && DocRejected(results[i]) { assert Unacceptable(results[i]); }
  }

  lemma RoutedWhere(x: Input, v3: bool, d: Doc)
    ensures Output(d, false) in Routed(x, v3) <==> Applied(x, v3, d)
    ensures Output(d, true) in Routed(x, v3) <==> Held(x, v3, d)
  {
    hide DocRejected, Removed, GatewayTimeoutDoc, NotNeeded, Unacceptable, HoldsRejected;
    SameVerdicts(d);
    SameVerdicts(x.doc);
    if x.outcome.Converted? { SomeRejected(x.outcome.results); }
    if ResultOf(x, v3, d) {
      var j :| 0 <= j < |x.outcome.results| && x.outcome.results[j] == d;
      assert Routed(x, v3)[j].doc == d;
    }
  }

  /** A file counts as failed exactly for what a human must look at again: a document that did not convert, or a result
      that is rejected; not for what 3.0 has no use for. */
  lemma ErrorsAreHeld(x: Input, v3: bool)
    ensures Errs(x, v3) <==>
              exists d :: Held(x, v3, d) && !(v3 && NotNeeded(x.doc)) && (!x.outcome.Converted? || Unacceptable(d))
  {
    hide DocRejected, Removed, GatewayTimeoutDoc, NotNeeded, Unacceptable, HoldsRejected;
    SameVerdicts(x.doc);
    if x.outcome.Converted? { SomeRejected(x.outcome.results); }
    if Errs(x, v3) {
      if x.outcome.Converted? {
        var d :| d in x.outcome.results && Unacceptable(d);
        assert Held(x, v3, d);
      } else {
        assert Held(x, v3, x.doc);
      }
    }
  }

  /** The documents of one input, in the order they are written. */
  function Written(x: Input, v3: bool): seq<Doc> {
    if x.skipped then []
    else if (v3 && GatewayTimeoutDoc(x.doc)) || !x.outcome.Converted? then [x.doc]
    else x.outcome.results
  }

  /** Every result is written, as often as it was produced and in its place, whichever tree it goes to. */
  lemma RoutedInOrder(x: Input, v3: bool)
    ensures Docs(Routed(x, v3)) == Written(x, v3)
  {
    hide DocRejected, Removed, GatewayTimeoutDoc;
  }

  // ---- safety of the apply tree ----------------------------------------------------

  /** Under v3 nothing the control plane rejects is in the apply tree, over all files and any mix of success,
      partial rejection and failure. */
  lemma ApplyTreeAccepted(xs: seq<Input>, d: Doc)
    requires d in Select(AllRouted(xs, true), false)
    ensures !DocRejected(d)
  {
    hide Rejected, RemovedKind, DefaultGatewayTimeout;
    SelectedFrom(AllRouted(xs, true), false, d);
    RoutedFrom(xs, true, Output(d, false));
    var i :| 0 <= i < |xs| && Output(d, false) in Routed(xs[i], true);
  }

  /** A partially rejected conversion that also produced an accepted document of a removed kind: the one way past
      processFile for such a kind. */
  ghost predicate MixedBatch(x: Input, d: Doc) {
    && !x.skipped && !GatewayTimeoutDoc(x.doc) && x.outcome.Converted? && HoldsRejected(x.outcome.results)
    && d in x.outcome.results && Removed(d) && !DocRejected(d)
  }

  lemma RemovedRouted(x: Input, d: Doc)
    requires Removed(d)
    ensures Output(d, false) in Routed(x, true) <==> MixedBatch(x, d)
  {
    hide DocRejected, Removed, DefaultGatewayTimeout;
    if MixedBatch(x, d) {
      var j :| 0 <= j < |x.outcome.results| && x.outcome.results[j] == d;
      assert Routed(x, true)[j] == Output(d, false);
    }
  }

  /** In particular no ref of a checked policy in the apply tree still selects a Dataplane or a real resource
      by name, and no permission or fault policy there still has from[]. */
  lemma ApplyTreeSelectsByLabels(xs: seq<Input>, obj: Object)
    requires Some(obj) in Select(AllRouted(xs, true), false)
    requires IsKuma(obj) && ObjAt(obj, "spec").Some?
    ensures TopLevelChecked(KindOf(obj)) ==> !NamesSomething(Sub(obj, "spec")) && !BadTopKind(Sub(obj, "spec"))
    ensures FromRemoved(KindOf(obj)) ==> ArrAt(Sub(obj, "spec"), "from") == []
  {
    hide Unconverted, NamesSomething, BadTo, TopLevelChecked, RemovedKind;
    ApplyTreeAccepted(xs, Some(obj));
  }

  /** What else is not in the apply tree: a to[] where 3.0 has none, items of a kind it does not take there, policies
      for gateways only, and removed fields. */
  lemma ApplyTreeIsCurrent(xs: seq<Input>, obj: Object)
    requires Some(obj) in Select(AllRouted(xs, true), false) && OfKuma(obj)
    ensures var kind, spec := KindOf(obj), Sub(obj, "spec");
      ObjAt(obj, "spec").Some? && kind in TO_KINDS && ArrAt(spec, "to") != [] ==>
        && TO_KINDS[kind] != {}
        && (kind in {"MeshFaultInjection", "MeshRateLimit"} ==> StrOr(Sub(spec, "targetRef"), "kind") in {"", "Mesh"})
        && forall item :: item in ArrAt(spec, "to") && item.Obj? ==>
             StrOr(Sub(item.fields, "targetRef"), "kind") in TO_KINDS[kind] + {""}
    ensures "Mesh" <= KindOf(obj) && ForGateways(obj) ==>
              KindOf(obj) == "MeshTimeout" && "mesh-gateways-timeout-all-" <= NameOf(obj)
    ensures KindOf(obj) == "Dataplane" ==>
              forall v :: v in Outbounds(obj) ==> "tags" !in Fields(v) || "backendRef" in Fields(v)
    ensures KindOf(obj) == "MeshService" ==> "dataplaneTags" !in Sub(Sub(obj, "spec"), "selector")
    ensures KindOf(obj) == "MeshExternalService" ==>
              forall field :: field in {"caCert", "clientCert", "clientKey"} ==> !FlatSource(Verification(obj), field)
  {
    hide TO_KINDS, RemovedKind, NamesSomething, FlatSource, Outbounds, NameOf;
    ApplyTreeAccepted(xs, Some(obj));
    var kind, spec := KindOf(obj), Sub(obj, "spec");
    if ObjAt(obj, "spec").Some? && kind in TO_KINDS {
      forall item | item in ArrAt(spec, "to") && item.Obj? && ArrAt(spec, "to") != []
        ensures StrOr(Sub(item.fields, "targetRef"), "kind") in TO_KINDS[kind] + {""}
      {
        var i :| 0 <= i < |ArrAt(spec, "to")| && ArrAt(spec, "to")[i] == item;
        assert !BadItemKind(kind, ArrAt(spec, "to")[i]);
      }
    }
    assert DATA_SOURCES[0] == "caCert" && DATA_SOURCES[1] == "clientCert" && DATA_SOURCES[2] == "clientKey";
  }

  /** And the converse: a policy that selects by labels only, with refs of kinds that 3.0 takes there, not for gateways
      only and without a removed from[], is not rejected. */
  lemma CurrentPolicyAccepted(obj: Object)
    requires ObjAt(obj, "spec").Some? && KindOf(obj) in TO_KINDS
    requires KindOf(obj) !in {"Dataplane", "MeshService", "MeshExternalService"} && !ForGateways(obj)
    requires var kind, spec, to := KindOf(obj), Sub(obj, "spec"), ArrAt(Sub(obj, "spec"), "to");
      && (kind in {"MeshTrafficPermission", "MeshFaultInjection"} ==> ArrAt(spec, "from") == [])
      && StrOr(Sub(spec, "targetRef"), "kind") in {"", "Mesh", "Dataplane"}
      && (kind in {"MeshFaultInjection", "MeshRateLimit"} && to != [] ==>
            StrOr(Sub(spec, "targetRef"), "kind") in {"", "Mesh"})
      && ByLabels(Sub(spec, "targetRef")) && (to != [] ==> TO_KINDS[kind] != {})
      && forall i :: 0 <= i < |to| ==>
           && ByLabels(Sub(Fields(to[i]), "targetRef"))
           && StrOr(Sub(Fields(to[i]), "targetRef"), "kind") in TO_KINDS[kind] + {""}
    ensures !Rejected(obj)
  {
    hide TO_KINDS;
  }

  predicate ByLabels(ref: Object) {
    "name" !in ref && "namespace" !in ref
  }

  /** The refs of a policy as the rewrite sees them. */
  predicate SpecOf(spec: Object, p: Policy) {
    && ObjAt(spec, "targetRef") == p.top && |ArrAt(spec, "to")| == |p.to|
    && forall i :: 0 <= i < |p.to| ==> ItemRef(ArrAt(spec, "to")[i]) == p.to[i]
  }

  /** After the rewrite, a policy is held back for naming something exactly when a ref that names something was left
      alone: one that contradicts its labels, or selects a Dataplane by name. */
  lemma HeldBackForNaming(spec: Object, p: Policy)
    requires SpecOf(spec, FixPolicy(p))
    ensures NamesSomething(spec) <==> SomeRef(p, ref => NamedRef(ref) && LeftAlone(ref, p))
  {
    hide FixPolicy, NamedRef, LeftAlone;
    var out := FixPolicy(p);
    assert NamesSomething(spec) <==> SomeRef(out, NamedRef);
    StillNamed(p);
  }
}
