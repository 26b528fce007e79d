/** Kuma 3.0 selects real resources by labels only (v3_policy.go): name, namespace and mesh of a ref
    become labels that select the same resources, and a producer policy stays one. */
module LabelRefs {
  import opened Text
  import opened Json
  import opened TagKeys

  predicate LabelSelectedKind(kind: string) {
    kind in {"MeshService", "MeshExternalService", "MeshMultiZoneService", "MeshHTTPRoute"}
  }

  predicate NamespacedKind(kind: string) {
    kind == "MeshService" || kind == "MeshHTTPRoute"
  }

  // ---- one ref ---------------------------------------------------------------

  /** The labels name, namespace and mesh stand for. */
  function Want(ref: Object, policyNS: string, policyZone: string): map<string, string> {
    var kind, name, ns := StrOr(ref, "kind"), StrOr(ref, "name"), StrAt(ref, "namespace");
    var named :=
      if name == "" || kind == "Dataplane" then map[]
      else
        var own := if ns.None? && NamespacedKind(kind) then policyNS else "";
        Put(Put(map[DISPLAY_NAME := name], NAMESPACE, own), ZONE, policyZone);
    Put(Put(named, NAMESPACE, ns.Or("")), MESH, StrOr(ref, "mesh"))
  }

  function Existing(ref: Object): Object {
    ObjAt(ref, "labels").Or(map[])
  }

  predicate Conflicting(ref: Object, want: map<string, string>) {
    exists k :: k in want && k in Existing(ref) && Existing(ref)[k] != Str(want[k])
  }

  /** The guards of fixRefToLabels: what it rewrites, conflicts aside. */
  predicate Rewritable(ref: Object) {
    var kind := StrOr(ref, "kind");
    && (LabelSelectedKind(kind)
        || (kind == "Dataplane" && StrAt(ref, "name").None? && StrAt(ref, "namespace").None?))
    && (StrAt(ref, "name").Some? || StrAt(ref, "namespace").Some? || StrAt(ref, "mesh").Some?)
  }

  function AsValues(m: map<string, string>): Object {
    map k | k in m :: Str(m[k])
  }

  function Rewritten(ref: Object, want: map<string, string>): Object {
    (ref - {"name", "namespace", "mesh"})["labels" := Obj(Existing(ref) + AsValues(want))]
  }

  function FixRef(ref: Object, policyNS: string, policyZone: string): Object {
    var want := Want(ref, policyNS, policyZone);
    if Rewritable(ref) && !Conflicting(ref, want) then Rewritten(ref, want) else ref
  }

  /** The wanted labels whose key already holds something else, in any order. */
  method FindConflicts(existing: Object, want: map<string, string>) returns (conflicts: set<string>)
    ensures conflicts == set k | k in want && k in existing && existing[k] != Str(want[k])
    ensures conflicts != {} <==> exists k :: k in want && k in existing && existing[k] != Str(want[k])
  {
    conflicts := {};
    var todo := want.Keys;
    while todo != {}
      invariant todo <= want.Keys
      invariant conflicts == set k | k in want && k !in todo && k in existing && existing[k] != Str(want[k])
      decreases |todo|
    {
      var k :| k in todo;
      todo := todo - {k};
      if k in existing && existing[k] != Str(want[k]) { conflicts := conflicts + {k}; }
    }
    assert forall k :: k in want && k in existing && existing[k] != Str(want[k]) ==> k in conflicts;
  }

  method WriteLabels(existing: Object, want: map<string, string>) returns (labels: Object)
    ensures labels == existing + AsValues(want)
  {
    hide Partly, AsValues;
    labels := existing;
    var todo := want.Keys;
    PartlyEnds(existing, want);
    while todo != {}
      invariant todo <= want.Keys
      invariant labels == Partly(existing, want, todo)
      decreases |todo|
    {
      var k :| k in todo;
      WriteOne(existing, want, todo, k);
      todo := todo - {k};
      labels := labels[k := Str(want[k])];
    }
  }

  lemma PartlyEnds(existing: Object, want: map<string, string>)
    ensures Partly(existing, want, want.Keys) == existing
    ensures Partly(existing, want, {}) == existing + AsValues(want)
  {
    assert AsValues(want) == map k | k in want && k !in {} :: Str(want[k]);
  }

  function Partly(existing: Object, want: map<string, string>, todo: set<string>): Object {
    existing + map k | k in want && k !in todo :: Str(want[k])
  }

  lemma WriteOne(existing: Object, want: map<string, string>, todo: set<string>, k: string)
    requires k in todo && k in want
    ensures Partly(existing, want, todo - {k}) == Partly(existing, want, todo)[k := Str(want[k])]
  {
  }

  /** fixRefToLabels. */
  method FixRefToLabels(ref: Object, policyNS: string, policyZone: string) returns (changed: bool, out: Object)
    ensures out == FixRef(ref, policyNS, policyZone)
    ensures changed <==> Rewritable(ref) && !Conflicting(ref, Want(ref, policyNS, policyZone))
  {
    var kind := StrOr(ref, "kind");
    var name, ns, mesh := StrAt(ref, "name"), StrAt(ref, "namespace"), StrAt(ref, "mesh");
    if kind == "Dataplane" && (name.Some? || ns.Some?) { return false, ref; }
    if !LabelSelectedKind(kind) && kind != "Dataplane" { return false, ref; }
    if name.None? && ns.None? && mesh.None? { return false, ref; }

    var want := map[];
    if name.Some? && name.value != "" && kind != "Dataplane" {
      want := want[DISPLAY_NAME := name.value];
      if ns.None? && policyNS != "" && NamespacedKind(kind) { want := want[NAMESPACE := policyNS]; }
      if policyZone != "" { want := want[ZONE := policyZone]; }
    }
    if ns.Some? && ns.value != "" { want := want[NAMESPACE := ns.value]; }
    if mesh.Some? && mesh.value != "" { want := want[MESH := mesh.value]; }
    assert want == Want(ref, policyNS, policyZone);

    var conflicts := FindConflicts(Existing(ref), want);
    if conflicts != {} { return false, ref; }
    var labels := WriteLabels(Existing(ref), want);
    return true, (ref - {"name", "namespace", "mesh"})["labels" := Obj(labels)];
  }

  // ---- what a ref selects ----------------------------------------------------

  datatype Resource = Resource(kind: string, name: string, namespace: string, zone: string, mesh: string,
                               labels: map<string, string>)

  predicate Labelled(labels: map<string, string>, key: string, value: string) {
    if value == "" then key !in labels else key in labels && labels[key] == value
  }

  /** The labels the control plane computes for a resource. */
  predicate WellLabelled(r: Resource) {
    && r.name != "" && Labelled(r.labels, DISPLAY_NAME, r.name) && Labelled(r.labels, NAMESPACE, r.namespace)
    && Labelled(r.labels, ZONE, r.zone) && Labelled(r.labels, MESH, r.mesh)
  }

  ghost predicate LabelsSelect(selector: Object, r: Resource) {
    forall k :: k in selector ==> k in r.labels && selector[k] == Str(r.labels[k])
  }

  /** 2.x: name, namespace and mesh are compared with the resource's own; a namespaced kind without a
      namespace resolves in the policy's, a name on a zone-origin policy in the policy's zone. */
  ghost predicate SelectsByName(ref: Object, policyNS: string, policyZone: string, r: Resource) {
    var name, ns, mesh := StrOr(ref, "name"), StrAt(ref, "namespace"), StrOr(ref, "mesh");
    var named := name != "" && StrOr(ref, "kind") != "Dataplane";
    && r.kind == StrOr(ref, "kind")
    && LabelsSelect(Existing(ref), r)
    && (named ==> r.name == name)
    && (ns.Or("") != "" ==> r.namespace == ns.value)
    && (named && ns.None? && r.kind in {"MeshService", "MeshHTTPRoute"} && policyNS != "" ==> r.namespace == policyNS)
    && (named && policyZone != "" ==> r.zone == policyZone)
    && (mesh != "" ==> r.mesh == mesh)
  }

  /** 3.0: labels only. */
  ghost predicate SelectsByLabels(ref: Object, r: Resource) {
    r.kind == StrOr(ref, "kind") && LabelsSelect(Existing(ref), r)
  }

  lemma WantedLabels(ref: Object, policyNS: string, policyZone: string, r: Resource)
    requires WellLabelled(r)
    ensures SelectsByName(ref, policyNS, policyZone, r)
       <==> && r.kind == StrOr(ref, "kind") && LabelsSelect(Existing(ref), r)
            && LabelsSelect(AsValues(Want(ref, policyNS, policyZone)), r)
  {
    hide AsValues, LabelsSelect, LabelsMatch, Existing;
    var want := Want(ref, policyNS, policyZone);
    ValuesSelect(want, r);
    KeysApart();
    hide DISPLAY_NAME, NAMESPACE, ZONE, MESH;
    FourLabels(want, r.labels);
  }

  lemma FourLabels(want: map<string, string>, labels: map<string, string>)
    requires forall k :: k in want ==> k == DISPLAY_NAME || k == NAMESPACE || k == ZONE || k == MESH
    ensures LabelsMatch(want, labels) <==>
              && (DISPLAY_NAME in want ==> Has(labels, DISPLAY_NAME, want[DISPLAY_NAME]))
              && (NAMESPACE in want ==> Has(labels, NAMESPACE, want[NAMESPACE]))
              && (ZONE in want ==> Has(labels, ZONE, want[ZONE]))
              && (MESH in want ==> Has(labels, MESH, want[MESH]))
  {
    hide DISPLAY_NAME, NAMESPACE, ZONE, MESH;
  }

  lemma KeysApart()
    ensures DISPLAY_NAME != NAMESPACE && DISPLAY_NAME != ZONE && DISPLAY_NAME != MESH
    ensures NAMESPACE != ZONE && NAMESPACE != MESH && ZONE != MESH
  {
    assert |ZONE| == 12 && |MESH| == 12 && ZONE[8] == 'z' && MESH[8] == 'm' && |NAMESPACE| == 21 &&
        |DISPLAY_NAME| == 20;
  }

  lemma ValuesSelect(want: map<string, string>, r: Resource)
    ensures LabelsSelect(AsValues(want), r) <==> LabelsMatch(want, r.labels)
  {
    if LabelsSelect(AsValues(want), r) {
      forall k | k in want ensures Has(r.labels, k, want[k]) { assert k in AsValues(want); }
    }
  }

  /** A rewritten ref selects, by labels, exactly what the original selected by name. */
  lemma RewriteKeepsSelection(ref: Object, policyNS: string, policyZone: string, r: Resource)
    requires WellLabelled(r)
    requires Rewritable(ref) && !Conflicting(ref, Want(ref, policyNS, policyZone))
    ensures SelectsByLabels(FixRef(ref, policyNS, policyZone), r) <==> SelectsByName(ref, policyNS, policyZone, r)
  {
    WantedLabels(ref, policyNS, policyZone, r);
    var want := Want(ref, policyNS, policyZone);
    var both := Existing(ref) + AsValues(want);
    var out := FixRef(ref, policyNS, policyZone);
    assert Existing(out) == both && StrOr(out, "kind") == StrOr(ref, "kind");
    if LabelsSelect(both, r) {
      forall k | k in Existing(ref) ensures k in r.labels && Existing(ref)[k] == Str(r.labels[k]) {
        assert k in both && (k in want ==> Existing(ref)[k] == Str(want[k]));
      }
      forall k | k in AsValues(want) ensures k in r.labels && AsValues(want)[k] == Str(r.labels[k]) {
        assert k in both;
      }
    }
  }

  /** What a conflict leaves in place selected nothing: the ref contradicts itself. */
  lemma ConflictSelectsNothing(ref: Object, policyNS: string, policyZone: string, r: Resource)
    requires WellLabelled(r)
    requires Rewritable(ref) && Conflicting(ref, Want(ref, policyNS, policyZone))
    ensures FixRef(ref, policyNS, policyZone) == ref && !SelectsByName(ref, policyNS, policyZone, r)
  {
    WantedLabels(ref, policyNS, policyZone, r);
    var want := Want(ref, policyNS, policyZone);
    var k :| k in want && k in Existing(ref) && Existing(ref)[k] != Str(want[k]);
    assert k in AsValues(want);
  }

  /** Rewriting twice is rewriting once. */
  lemma FixRefIdempotent(ref: Object, policyNS: string, policyZone: string)
    ensures var once := FixRef(ref, policyNS, policyZone); FixRef(once, policyNS, policyZone) == once
  {
  }

  // ---- a whole policy --------------------------------------------------------

  /** A policy's own labels, its top-level ref, and the targetRef of each to[] item (None when the item
      has no targetRef object). */
  datatype Policy = Policy(namespace: string, labels: Object, top: Option<Object>, to: seq<Option<Object>>)

  function PolicyZone(p: Policy): string {
    if HasStr(p.labels, ORIGIN, "zone") then StrOr(p.labels, ZONE) else ""
  }

  function FixOptional(ref: Option<Object>, p: Policy): Option<Object> {
    if ref.None? then None else Some(FixRef(ref.value, p.namespace, PolicyZone(p)))
  }

  predicate SystemNamespace(ns: string) {
    ns == "kuma-system" || ns == "kong-mesh-system"
  }

  predicate OwnNamespaceRef(ref: Option<Object>, ns: string) {
    && ref.Some? && NamespacedKind(StrOr(ref.value, "kind"))
    && StrOr(Existing(ref.value), NAMESPACE) == ns
  }

  /** isProducerPolicy: the recorded role decides; without one, the 2.x producer shape does. */
  predicate IsProducer(p: Policy) {
    && p.namespace != "" && !SystemNamespace(p.namespace) && p.to != []
    && if StrOr(p.labels, ROLE) != "" then StrOr(p.labels, ROLE) == "producer"
       else forall i :: 0 <= i < |p.to| ==> OwnNamespaceRef(p.to[i], p.namespace)
  }

  function PinZone(ref: Option<Object>, zone: string): Option<Object> {
    if ref.None? || !NamespacedKind(StrOr(ref.value, "kind")) then ref
    else
      var labels := ObjAt(ref.value, "labels");
      if labels.None? || ZONE in labels.value || zone == "" then ref
      else Some(ref.value["labels" := Obj(labels.value[ZONE := Str(zone)])])
  }

  /** The policy with every ref rewritten. */
  function Relabelled(p: Policy): Policy {
    p.(top := FixOptional(p.top, p),
       to := seq(|p.to|, i requires 0 <= i < |p.to| => FixOptional(p.to[i], p)))
  }

  function FixPolicy(p: Policy): Policy {
    var q := Relabelled(p);
    if !IsProducer(q) then q
    else q.(to := seq(|q.to|, i requires 0 <= i < |q.to| => PinZone(q.to[i], StrOr(q.labels, ZONE))))
  }

  /** pinProducerZoneForV3. */
  method PinProducerZone(p: Policy) returns (modified: bool, out: Policy)
    ensures out == if !IsProducer(p) then p
                   else p.(to := seq(|p.to|, i requires 0 <= i < |p.to| => PinZone(p.to[i], StrOr(p.labels, ZONE))))
    ensures modified <==> out != p
  {
    if !IsProducer(p) { return false, p; }
    var zone := StrOr(p.labels, ZONE);
    var to := [];
    modified := false;
    for i := 0 to |p.to|
      invariant |to| == i && forall j :: 0 <= j < i ==> to[j] == PinZone(p.to[j], zone)
      invariant modified <==> to != p.to[..i]
    {
      assert p.to[..i + 1] == p.to[..i] + [p.to[i]];
      var ref := p.to[i];
      if ref.Some? && NamespacedKind(StrOr(ref.value, "kind")) {
        var labels := ObjAt(ref.value, "labels");
        if labels.Some? && ZONE !in labels.value && zone != "" {
          ref := Some(ref.value["labels" := Obj(labels.value[ZONE := Str(zone)])]);
          modified := true;
        }
      }
      AppendEqual(to, p.to[..i], ref, p.to[i]);
      to := to + [ref];
    }
    assert p.to[..|p.to|] == p.to;
    out := p.(to := to);
  }

  /** fixRealResourceTargetRefsForV3. */
  method FixRealResourceTargetRefs(p: Policy) returns (modified: bool, out: Policy)
    ensures out == FixPolicy(p)
    ensures modified <==> out != p
  {
    hide FixRef, IsProducer, PinZone, Rewritable, Conflicting;
    modified := false;
    var zone := PolicyZone(p);
    var top := p.top;
    if top.Some? {
      var changed, ref := FixRefToLabels(top.value, p.namespace, zone);
      UnchangedRef(top.value, p.namespace, zone);
      top := Some(ref);
      modified := changed;
    }
    var to := [];
    for i := 0 to |p.to|
      invariant |to| == i && forall j :: 0 <= j < i ==> to[j] == FixOptional(p.to[j], p)
      invariant modified <==> top != p.top || to != p.to[..i]
    {
      assert p.to[..i + 1] == p.to[..i] + [p.to[i]];
      var entry := p.to[i];
      if entry.Some? {
        var changed, ref := FixRefToLabels(entry.value, p.namespace, zone);
        UnchangedRef(entry.value, p.namespace, zone);
        entry := Some(ref);
        modified := modified || changed;
      }
      AppendEqual(to, p.to[..i], entry, p.to[i]);
      to := to + [entry];
    }
    assert p.to[..|p.to|] == p.to;
    out := p.(top := top, to := to);
    assert to == seq(|p.to|, i requires 0 <= i < |p.to| => FixOptional(p.to[i], p));
    var pinned, final := PinProducerZone(out);
    PinKeepsRewrite(p, out, final);
    modified, out := modified || pinned, final;
  }

  lemma UnchangedRef(ref: Object, policyNS: string, policyZone: string)
    ensures !(Rewritable(ref) && !Conflicting(ref, Want(ref, policyNS, policyZone))) <==>
              FixRef(ref, policyNS, policyZone) == ref
  {
  }

  /** Pinning never undoes a rewrite: a rewritten ref has lost a key that pinning does not put back. */
  lemma PinKeepsRewrite(p: Policy, q: Policy, out: Policy)
    requires q == Relabelled(p)
    requires out == if !IsProducer(q) then q
                    else q.(to := seq(|q.to|, i requires 0 <= i < |q.to| => PinZone(q.to[i], StrOr(q.labels, ZONE))))
    ensures out == p <==> q == p && out == q
  {
    hide FixRef, IsProducer, PinZone;
    if out == p && q != p {
      forall i | 0 <= i < |p.to| ensures q.to[i] == p.to[i] { PinKeepsOne(p.to[i], p); }
    }
  }

  lemma PinKeepsOne(ref: Option<Object>, p: Policy)
    ensures PinZone(FixOptional(ref, p), StrOr(p.labels, ZONE)) == ref ==> FixOptional(ref, p) == ref
  {
    hide Want;
    if ref.Some? { UnchangedRef(ref.value, p.namespace, PolicyZone(p)); }
  }

  /** A pinned ref is not rewritten again, and not pinned again. */
  lemma PinnedStays(ref: Option<Object>, p: Policy, zone: string)
    ensures var pinned := PinZone(FixOptional(ref, p), zone);
      FixOptional(pinned, p) == pinned && PinZone(pinned, zone) == pinned
  {
    if ref.Some? {
      FixRefIdempotent(ref.value, p.namespace, PolicyZone(p));
      PinKeepsFixed(FixRef(ref.value, p.namespace, PolicyZone(p)), p.namespace, PolicyZone(p), zone);
    }
  }

  lemma PinKeepsFixed(ref: Object, policyNS: string, policyZone: string, zone: string)
    requires FixRef(ref, policyNS, policyZone) == ref
    ensures var pinned := PinZone(Some(ref), zone);
      pinned.Some? && FixRef(pinned.value, policyNS, policyZone) == pinned.value && PinZone(pinned, zone) == pinned
  {
    hide FixRef, Want;
    var pinned := PinZone(Some(ref), zone).value;
    assert Want(pinned, policyNS, policyZone) == Want(ref, policyNS, policyZone) by {
      SameWant(ref, pinned, policyNS, policyZone);
    }
    UnchangedRef(ref, policyNS, policyZone);
    UnchangedRef(pinned, policyNS, policyZone);
    var want := Want(ref, policyNS, policyZone);
    if Conflicting(ref, want) {
      var k :| k in want && k in Existing(ref) && Existing(ref)[k] != Str(want[k]);
      assert k in Existing(pinned) && Existing(pinned)[k] != Str(want[k]);
    }
  }

  lemma SameWant(a: Object, b: Object, policyNS: string, policyZone: string)
    requires StrOr(a, "kind") == StrOr(b, "kind") && StrOr(a, "name") == StrOr(b, "name")
    requires StrAt(a, "namespace") == StrAt(b, "namespace") && StrOr(a, "mesh") == StrOr(b, "mesh")
    ensures Want(a, policyNS, policyZone) == Want(b, policyNS, policyZone)
  {
  }

  /** Whether a policy is a producer does not change when its items are pinned. */
  lemma PinKeepsRole(q: Policy, zone: string)
    ensures IsProducer(q.(to := seq(|q.to|, i requires 0 <= i < |q.to| => PinZone(q.to[i], zone)))) == IsProducer(q)
  {
    var out := q.(to := seq(|q.to|, i requires 0 <= i < |q.to| => PinZone(q.to[i], zone)));
    assert forall i :: 0 <= i < |q.to| ==>
        OwnNamespaceRef(out.to[i], q.namespace) == OwnNamespaceRef(q.to[i], q.namespace);
  }

  /** Rewriting a whole policy twice, pinning included, is rewriting it once. */
  lemma FixPolicyIdempotent(p: Policy)
    ensures FixPolicy(FixPolicy(p)) == FixPolicy(p)
  {
    hide FixRef, PinZone, IsProducer;
    var zone := StrOr(p.labels, ZONE);
    var q := Relabelled(p);
    var out := FixPolicy(p);
    if p.top.Some? { FixRefIdempotent(p.top.value, p.namespace, PolicyZone(p)); }
    forall i | 0 <= i < |out.to|
      ensures FixOptional(out.to[i], out) == out.to[i] && (IsProducer(q) ==> PinZone(out.to[i], zone) == out.to[i])
    {
      PinnedStays(p.to[i], p, zone);
      if p.to[i].Some? { FixRefIdempotent(p.to[i].value, p.namespace, PolicyZone(p)); }
    }
    PinKeepsRole(q, zone);
    var again := out.(top := FixOptional(out.top, out),
        to := seq(|out.to|, i requires 0 <= i < |out.to| => FixOptional(out.to[i], out)));
    assert again == out;
    assert IsProducer(out) == IsProducer(q);
  }

  // ---- what does not change ------------------------------------------------------

  /** Everything of a ref but its identity and its labels. */
  function Rest(ref: Object): Object {
    ref - {"name", "namespace", "mesh", "labels"}
  }

  /** A rewritten ref keeps its kind, its sectionName and whatever else it has, and adds to its labels; the name,
      namespace and mesh that became labels are gone. Any other ref is left as it is. */
  lemma FixRefKeepsRest(ref: Object, policyNS: string, policyZone: string)
    ensures var out := FixRef(ref, policyNS, policyZone);
      && Rest(out) == Rest(ref)
      && (forall k :: k in Existing(ref) ==> k in Existing(out) && Existing(out)[k] == Existing(ref)[k])
      && (out != ref ==> "name" !in out && "namespace" !in out && "mesh" !in out && ObjAt(out, "labels").Some?)
  {
    hide Want;
  }

  /** Pinning adds the zone to the labels of an item that has labels without one, and nothing else. */
  lemma PinKeepsRest(ref: Object, zone: string)
    ensures var out := PinZone(Some(ref), zone);
      && out.Some? && out.value - {"labels"} == ref - {"labels"}
      && Existing(out.value) - {ZONE} == Existing(ref) - {ZONE}
      && (ZONE in Existing(ref) ==> out.value == ref)
      && (out.value != ref ==>
            zone != "" && NamespacedKind(StrOr(ref, "kind")) && HasStr(Existing(out.value), ZONE, zone))
  {
  }

  ghost predicate KeepsRest(ref: Option<Object>, out: Option<Object>) {
    if ref.None? then out.None?
    else
      && out.Some? && Rest(out.value) == Rest(ref.value)
      && forall k :: k in Existing(ref.value) ==>
           k in Existing(out.value) && Existing(out.value)[k] == Existing(ref.value)[k]
  }

  /** So does every ref of a whole policy, and the policy stays what it is. */
  lemma FixPolicyKeepsRest(p: Policy)
    ensures var out := FixPolicy(p);
      && out.namespace == p.namespace && out.labels == p.labels && KeepsRest(p.top, out.top)
      && |out.to| == |p.to| && forall i :: 0 <= i < |p.to| ==> KeepsRest(p.to[i], out.to[i])
  {
    hide FixRef, PinZone, IsProducer;
    if p.top.Some? { FixRefKeepsRest(p.top.value, p.namespace, PolicyZone(p)); }
    forall i | 0 <= i < |p.to| ensures KeepsRest(p.to[i], FixPolicy(p).to[i]) {
      if p.to[i].Some? {
        FixRefKeepsRest(p.to[i].value, p.namespace, PolicyZone(p));
        PinKeepsRest(FixRef(p.to[i].value, p.namespace, PolicyZone(p)), StrOr(p.labels, ZONE));
        PinnedRest(FixRef(p.to[i].value, p.namespace, PolicyZone(p)), StrOr(p.labels, ZONE));
      } else {
        NonePinned(StrOr(p.labels, ZONE));
      }
    }
  }

  lemma PinnedRest(ref: Object, zone: string)
    ensures KeepsRest(Some(ref), PinZone(Some(ref), zone))
  {
  }

  /** The zone a policy was created in, as far as it says. */
  function OriginZone(p: Policy): string {
    if HasStr(p.labels, ORIGIN, "zone") && ZONE in p.labels && p.labels[ZONE].Str? then p.labels[ZONE].s else ""
  }

  /** In a whole policy: an item selects afterwards, by labels, exactly what it selected by name; in a producer policy
      with a known zone, an item without a zone of its own only what of that is in the policy's zone. */
  lemma PolicyKeepsSelection(p: Policy, i: nat, r: Resource)
    requires WellLabelled(r) && i < |p.to| && p.to[i].Some? && Rewritable(p.to[i].value)
    requires !Conflicting(p.to[i].value, Want(p.to[i].value, p.namespace, PolicyZone(p)))
    ensures var ref, out, zone := p.to[i].value, FixPolicy(p).to[i], StrOr(p.labels, ZONE);
      && out.Some?
      && var pinned := && IsProducer(Relabelled(p)) && zone != "" && NamespacedKind(StrOr(ref, "kind"))
                       && ZONE !in Existing(FixRef(ref, p.namespace, PolicyZone(p)));
         SelectsByLabels(out.value, r) <==>
           SelectsByName(ref, p.namespace, OriginZone(p), r) && (pinned ==> r.zone == zone)
  {
    hide FixRef, IsProducer, PinZone, SelectsByName, SelectsByLabels, Rewritable, WellLabelled, Conflicting, Want;
    var ref, zone := p.to[i].value, StrOr(p.labels, ZONE);
    RewriteKeepsSelection(ref, p.namespace, PolicyZone(p), r);
    RewrittenHasLabels(ref, p.namespace, PolicyZone(p));
    PinSelects(FixRef(ref, p.namespace, PolicyZone(p)), zone, r);
  }

  /** The top-level ref: the same, without a zone to pin. */
  lemma TopKeepsSelection(p: Policy, r: Resource)
    requires WellLabelled(r) && p.top.Some? && Rewritable(p.top.value)
    requires !Conflicting(p.top.value, Want(p.top.value, p.namespace, PolicyZone(p)))
    ensures FixPolicy(p).top.Some?
    ensures SelectsByLabels(FixPolicy(p).top.value, r) <==> SelectsByName(p.top.value, p.namespace, OriginZone(p), r)
  {
    hide FixRef, IsProducer, PinZone, SelectsByName, SelectsByLabels, Rewritable, WellLabelled, Conflicting, Want;
    RewriteKeepsSelection(p.top.value, p.namespace, PolicyZone(p), r);
  }

  /** Only producer policies are pinned: those of an application namespace whose recorded role says so, or that record
      none and whose items all select a service or route of that namespace. */
  lemma OnlyProducersPinned(p: Policy)
    requires FixPolicy(p) != Relabelled(p)
    ensures p.namespace !in {"", "kuma-system", "kong-mesh-system"} && StrOr(p.labels, ZONE) != ""
    ensures if StrOr(p.labels, ROLE) != "" then HasStr(p.labels, ROLE, "producer")
            else forall i :: 0 <= i < |p.to| ==>
              var ref := Relabelled(p).to[i];
              && ref.Some? && StrOr(ref.value, "kind") in {"MeshService", "MeshHTTPRoute"}
              && HasStr(Existing(ref.value), NAMESPACE, p.namespace)
  {
    hide FixRef;
    var q := Relabelled(p);
    assert IsProducer(q);
    UnknownZonePinsNothing(p);
    assert forall i :: 0 <= i < |q.to| && StrOr(p.labels, ROLE) == "" ==> OwnNamespaceRef(q.to[i], p.namespace);
  }

  lemma UnknownZonePinsNothing(p: Policy)
    ensures StrOr(p.labels, ZONE) == "" ==> FixPolicy(p) == Relabelled(p)
  {
    hide FixRef;
    var q := Relabelled(p);
    forall i | 0 <= i < |q.to| ensures PinZone(q.to[i], "") == q.to[i] {}
  }

  /** A named ref of a real resource is always rewritten, unless it contradicts its own labels. */
  lemma RealResourcesRewritten(ref: Object, policyNS: string, policyZone: string)
    requires StrOr(ref, "kind") in {"MeshService", "MeshExternalService", "MeshMultiZoneService", "MeshHTTPRoute"}
    requires StrAt(ref, "name").Some? || StrAt(ref, "namespace").Some? || StrAt(ref, "mesh").Some?
    requires !Conflicting(ref, Want(ref, policyNS, policyZone))
    ensures FixRef(ref, policyNS, policyZone) != ref
  {
    hide Want;
    FixRefKeepsRest(ref, policyNS, policyZone);
    UnchangedRef(ref, policyNS, policyZone);
  }

  lemma RewrittenHasLabels(ref: Object, policyNS: string, policyZone: string)
    requires Rewritable(ref) && !Conflicting(ref, Want(ref, policyNS, policyZone))
    ensures ObjAt(FixRef(ref, policyNS, policyZone), "labels").Some?
    ensures StrOr(FixRef(ref, policyNS, policyZone), "kind") == StrOr(ref, "kind")
  {
    hide Want;
  }

  lemma PinSelects(ref: Object, zone: string, r: Resource)
    requires WellLabelled(r) && ObjAt(ref, "labels").Some?
    ensures PinZone(Some(ref), zone).Some?
    ensures var pinned := zone != "" && NamespacedKind(StrOr(ref, "kind")) && ZONE !in Existing(ref);
      SelectsByLabels(PinZone(Some(ref), zone).value, r) <==> SelectsByLabels(ref, r) && (pinned ==> r.zone == zone)
  {
    var labels := Existing(ref);
    if zone != "" && NamespacedKind(StrOr(ref, "kind")) && ZONE !in labels {
      var out := PinZone(Some(ref), zone).value;
      assert Existing(out) == labels[ZONE := Str(zone)];
      if LabelsSelect(Existing(out), r) {
        forall k | k in labels ensures k in r.labels && labels[k] == Str(r.labels[k]) { assert k in Existing(out); }
      }
    }
  }

  // ---- what still names something ----------------------------------------------

  /** A Dataplane or real-resource ref that carries name or namespace, whatever their values. */
  predicate NamedRef(ref: Object) {
    (StrOr(ref, "kind") == "Dataplane" || LabelSelectedKind(StrOr(ref, "kind"))) &&
        ("name" in ref || "namespace" in ref)
  }

  /** The rewrite leaves this ref alone. */
  predicate LeftAlone(ref: Object, p: Policy) {
    !Rewritable(ref) || Conflicting(ref, Want(ref, p.namespace, PolicyZone(p)))
  }

  ghost predicate SomeRef(p: Policy, holds: Object -> bool) {
    (p.top.Some? && holds(p.top.value)) || exists i :: 0 <= i < |p.to| && p.to[i].Some? && holds(p.to[i].value)
  }

  lemma NamedAfterRewrite(ref: Object, p: Policy)
    ensures NamedRef(FixRef(ref, p.namespace, PolicyZone(p))) <==> NamedRef(ref) && LeftAlone(ref, p)
  {
    UnchangedRef(ref, p.namespace, PolicyZone(p));
  }

  lemma NamedAfterPinning(ref: Object, zone: string)
    ensures NamedRef(PinZone(Some(ref), zone).Or(map[])) == NamedRef(ref) && PinZone(Some(ref), zone).Some?
  {
  }

  /** Unless a field is no string, a named ref is left alone exactly when it names a Dataplane or contradicts its
      labels. */
  lemma LeftAloneMeans(ref: Object, p: Policy)
    requires NamedRef(ref) && forall k :: k in {"name", "namespace", "mesh"} && k in ref ==> ref[k].Str?
    ensures LeftAlone(ref, p) <==>
              StrOr(ref, "kind") == "Dataplane" || Conflicting(ref, Want(ref, p.namespace, PolicyZone(p)))
  {
  }

  /** After the rewrite of a policy some ref is still named exactly when a named one was left alone. */
  lemma StillNamed(p: Policy)
    ensures SomeRef(FixPolicy(p), NamedRef) <==> SomeRef(p, ref => NamedRef(ref) && LeftAlone(ref, p))
  {
    hide FixRef, PinZone, NamedRef, LeftAlone, IsProducer;
    var out := FixPolicy(p);
    var stays := (ref: Object) => NamedRef(ref) && LeftAlone(ref, p);
    if p.top.Some? { NamedAfterRewrite(p.top.value, p); }
    forall i | 0 <= i < |p.to| && p.to[i].Some?
      ensures out.to[i].Some? && (NamedRef(out.to[i].value) <==> stays(p.to[i].value))
    {
      NamedAfterRewrite(p.to[i].value, p);
      NamedAfterPinning(FixRef(p.to[i].value, p.namespace, PolicyZone(p)), StrOr(p.labels, ZONE));
    }
    forall i | 0 <= i < |out.to| && out.to[i].Some? ensures p.to[i].Some? { NonePinned(StrOr(p.labels, ZONE)); }
    if i :| 0 <= i < |out.to| && out.to[i].Some? && NamedRef(out.to[i].value) { assert stays(p.to[i].value); }
    if i :| 0 <= i < |p.to| && p.to[i].Some? && stays(p.to[i].value) { assert NamedRef(out.to[i].value); }
  }

  lemma NonePinned(zone: string)
    ensures PinZone(None, zone) == None
  {
  }

  /** ComputePolicyRole on 3.0: exactly the three labels, the policy's own namespace and its own zone. */
  predicate ProducerItem(ref: Option<Object>, namespace: string, zone: string) {
    && ref.Some? && NamespacedKind(StrOr(ref.value, "kind"))
    && var labels := Existing(ref.value);
       && labels.Keys == {DISPLAY_NAME, NAMESPACE, ZONE}
       && labels[NAMESPACE] == Str(namespace) && labels[ZONE] == Str(zone)
  }

  /** A to[] item that names a resource of the policy's own namespace, without labels. */
  predicate NamesOwnResource(ref: Option<Object>, namespace: string) {
    && ref.Some? && NamespacedKind(StrOr(ref.value, "kind")) && StrOr(ref.value, "name") != ""
    && StrAt(ref.value, "namespace").Or(namespace) == namespace && ObjAt(ref.value, "labels").None?
  }

  lemma OwnResourceNamed(ref: Option<Object>, namespace: string)
    requires NamesOwnResource(ref, namespace)
    ensures ref.Some?
  {
  }

  /** The labels such a ref gets. */
  function OwnLabels(name: string, mesh: string, p: Policy): map<string, string> {
    Put(Put(map[DISPLAY_NAME := name, NAMESPACE := p.namespace], ZONE, PolicyZone(p)), MESH, mesh)
  }

  lemma OwnResourceLabels(ref: Option<Object>, p: Policy)
    requires NamesOwnResource(ref, p.namespace) && p.namespace != ""
    ensures var out := FixOptional(ref, p);
      && out.Some? && NamespacedKind(StrOr(out.value, "kind"))
      && ObjAt(out.value, "labels") == Some(AsValues(OwnLabels(StrOr(ref.value, "name"), StrOr(ref.value, "mesh"), p)))
  {
    var want := Want(ref.value, p.namespace, PolicyZone(p));
    assert want == OwnLabels(StrOr(ref.value, "name"), StrOr(ref.value, "mesh"), p);
    assert Existing(ref.value) == map[];
    assert !Conflicting(ref.value, want);
    assert map[] + AsValues(want) == AsValues(want);
  }

  /** After the rewrite of a producer policy of an application namespace whose zone is known, an item has the
      three-label producer form if and only if it sets no mesh. */
  lemma ProducerStaysProducer(p: Policy)
    requires p.namespace != "" && !SystemNamespace(p.namespace)
    requires StrOr(p.labels, ROLE) == "" || StrOr(p.labels, ROLE) == "producer"
    requires StrOr(p.labels, ZONE) != ""
    requires p.to != [] && forall i :: 0 <= i < |p.to| ==> NamesOwnResource(p.to[i], p.namespace)
    ensures var out := FixPolicy(p);
      && |out.to| == |p.to|
      && forall i :: 0 <= i < |p.to| ==>
           && p.to[i].Some?
           && (ProducerItem(out.to[i], p.namespace, StrOr(p.labels, ZONE)) <==> StrOr(p.to[i].value, "mesh") == "")
  {
    hide FixRef, NamesOwnResource, OwnLabels;
    var zone := StrOr(p.labels, ZONE);
    var q := Relabelled(p);
    forall i | 0 <= i < |q.to|
      ensures OwnNamespaceRef(q.to[i], p.namespace) && p.to[i].Some?
      ensures ProducerItem(PinZone(q.to[i], zone), p.namespace, zone) <==> StrOr(p.to[i].value, "mesh") == ""
    {
      OwnResourceLabels(p.to[i], p);
      assert p.to[i].Some? by { OwnResourceNamed(p.to[i], p.namespace); }
      PinnedIsProducer(q.to[i], p, StrOr(p.to[i].value, "name"), StrOr(p.to[i].value, "mesh"));
    }
    assert IsProducer(q);
  }

  lemma PinnedIsProducer(ref: Option<Object>, p: Policy, name: string, mesh: string)
    requires StrOr(p.labels, ZONE) != "" && ref.Some? && NamespacedKind(StrOr(ref.value, "kind"))
    requires ObjAt(ref.value, "labels") == Some(AsValues(OwnLabels(name, mesh, p)))
    ensures OwnNamespaceRef(ref, p.namespace)
    ensures ProducerItem(PinZone(ref, StrOr(p.labels, ZONE)), p.namespace, StrOr(p.labels, ZONE)) <==> mesh == ""
  {
    KeysApart();
    var labels := Existing(ref.value);
    assert labels[NAMESPACE] == Str(p.namespace);
    assert DISPLAY_NAME in labels && NAMESPACE in labels && (MESH in labels <==> mesh != "");
    var pinned := Existing(PinZone(ref, StrOr(p.labels, ZONE)).value);
    assert pinned.Keys == {DISPLAY_NAME, NAMESPACE, ZONE} + (if mesh == "" then {} else {MESH});
    assert MESH in pinned <==> mesh != "";
  }
}
