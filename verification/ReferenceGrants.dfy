/** ReferenceGrants for a converted route (gatewayroute.go): what they permit is what the route points at. */
module ReferenceGrants {
  import opened Text
  import opened Json
  import Sorting

  // ---- what a route points at --------------------------------------------------

  /** The backendRef of a requestMirror filter. */
  function MirrorOf(filter: Value): Option<Value> {
    var mirror := ObjAt(Fields(filter), "requestMirror");
    if mirror.None? then None
    else
      var ref := ObjAt(mirror.value, "backendRef");
      if ref.None? then None else Some(Obj(ref.value))
  }

  function Mirrors(filters: seq<Value>): seq<Value> {
    if filters == [] then []
    else
      var m := MirrorOf(filters[|filters| - 1]);
      Mirrors(filters[..|filters| - 1]) + (if m.Some? then [m.value] else [])
  }

  function RefsOf(rule: Value): seq<Value> {
    ArrAt(Fields(rule), "backendRefs") + Mirrors(ArrAt(Fields(rule), "filters"))
  }

  /** A (namespace, service) a grant must permit: named, and outside the route's own namespace. */
  function CrossRef(ref: Value, routeNS: string): Option<(string, string)> {
    var ns, svc := StrOr(Fields(ref), "namespace"), StrOr(Fields(ref), "name");
    if ns == "" || svc == "" || ns == routeNS then None else Some((ns, svc))
  }

  ghost predicate PointsAt(rules: seq<Value>, routeNS: string, ns: string, svc: string) {
    exists i, ref :: 0 <= i < |rules| && ref in RefsOf(rules[i]) && CrossRef(ref, routeNS) == Some((ns, svc))
  }

  /** A filter mirrors requests to this backendRef. */
  predicate MirrorsTo(filter: Value, ref: Value) {
    && filter.Obj? && "requestMirror" in filter.fields && filter.fields["requestMirror"].Obj?
    && var mirror := filter.fields["requestMirror"].fields;
       "backendRef" in mirror && mirror["backendRef"] == ref && ref.Obj?
  }

  /** A rule refers to what it sends requests to and to what it mirrors them to. */
  ghost predicate Refers(rule: Value, ref: Value) {
    || ref in ArrAt(Fields(rule), "backendRefs")
    || exists filter :: filter in ArrAt(Fields(rule), "filters") && MirrorsTo(filter, ref)
  }

  /** A ref that names this service, in this namespace other than the route's own. */
  predicate Crosses(ref: Value, routeNS: string, ns: string, svc: string) {
    && ref.Obj? && HasStr(ref.fields, "namespace", ns) && HasStr(ref.fields, "name", svc)
    && ns != "" && svc != "" && ns != routeNS
  }

  /** A route points at a service exactly when one of its rules refers to it across namespaces. */
  lemma PointsAtMeans(rules: seq<Value>, routeNS: string, ns: string, svc: string)
    ensures PointsAt(rules, routeNS, ns, svc) <==>
              exists i, ref :: 0 <= i < |rules| && Refers(rules[i], ref) && Crosses(ref, routeNS, ns, svc)
  {
    hide Refers, RefsOf, Crosses, CrossRef;
    if i, ref :| 0 <= i < |rules| && ref in RefsOf(rules[i]) && CrossRef(ref, routeNS) == Some((ns, svc)) {
      RefersMeans(rules[i], ref);
      CrossesMeans(ref, routeNS, ns, svc);
    }
    if i, ref :| 0 <= i < |rules| && Refers(rules[i], ref) && Crosses(ref, routeNS, ns, svc) {
      RefersMeans(rules[i], ref);
      CrossesMeans(ref, routeNS, ns, svc);
    }
  }

  lemma CrossesMeans(ref: Value, routeNS: string, ns: string, svc: string)
    ensures Crosses(ref, routeNS, ns, svc) <==> CrossRef(ref, routeNS) == Some((ns, svc))
  {
  }

  lemma RefersMeans(rule: Value, ref: Value)
    ensures ref in RefsOf(rule) <==> Refers(rule, ref)
  {
    MirrorsMean(ArrAt(Fields(rule), "filters"), ref);
  }

  lemma {:induction false} MirrorsMean(filters: seq<Value>, ref: Value)
    ensures ref in Mirrors(filters) <==> exists filter :: filter in filters && MirrorsTo(filter, ref)
  {
    if filters != [] {
      var init, last := filters[..|filters| - 1], filters[|filters| - 1];
      MirrorsMean(init, ref);
      assert filters == init + [last];
      assert MirrorsTo(last, ref) <==> MirrorOf(last) == Some(ref);
    }
  }

  // ---- grants ------------------------------------------------------------------

  /** One ReferenceGrant: in its namespace, routes of a kind and namespace may refer to the services. */
  datatype Grant = Grant(namespace: string, fromKind: string, fromNamespace: string, services: seq<string>)

  ghost predicate Permits(grants: seq<Grant>, kind: string, routeNS: string, ns: string, svc: string) {
    exists i :: 0 <= i < |grants| && grants[i].namespace == ns && grants[i].fromKind == kind
             && grants[i].fromNamespace == routeNS && svc in grants[i].services
  }

  /** A placed route gets the grants that permit exactly the pairs its rules point at: one grant per namespace,
      namespaces and services in order, none empty and none for its own namespace. */
  ghost predicate ExactGrants(grants: seq<Grant>, kind: string, routeNS: string, rules: seq<Value>) {
    && (routeNS == "" ==> grants == [])
    && (routeNS != "" ==> forall ns, svc :: Permits(grants, kind, routeNS, ns, svc) <==>
          PointsAt(rules, routeNS, ns, svc))
    && InOrder(grants, kind, routeNS)
  }

  ghost predicate InOrder(grants: seq<Grant>, kind: string, routeNS: string) {
    && (forall i, j :: 0 <= i < j < |grants| ==> Less(grants[i].namespace, grants[j].namespace))
    && forall i :: 0 <= i < |grants| ==>
         && grants[i].fromKind == kind && grants[i].fromNamespace == routeNS && grants[i].namespace != routeNS
         && grants[i].services != [] && StrictlySorted(grants[i].services)
  }

  type ByNamespace = map<string, set<string>>

  ghost predicate Holds(byNS: ByNamespace, ns: string, svc: string) {
    ns in byNS && svc in byNS[ns]
  }

  ghost predicate NoneEmpty(byNS: ByNamespace) {
    forall ns :: ns in byNS ==> byNS[ns] != {}
  }

  method CollectMirrors(filters: seq<Value>) returns (refs: seq<Value>)
    ensures refs == Mirrors(filters)
  {
    refs := [];
    for i := 0 to |filters|
      invariant refs == Mirrors(filters[..i])
    {
      assert filters[..i + 1][..i] == filters[..i];
      var m := MirrorOf(filters[i]);
      if m.Some? { refs := refs + [m.value]; }
    }
    assert filters[..|filters|] == filters;
  }

  method AddRefs(refs: seq<Value>, routeNS: string, before: ByNamespace) returns (byNS: ByNamespace)
    requires NoneEmpty(before)
    ensures NoneEmpty(byNS)
    ensures forall ns, svc :: Holds(byNS, ns, svc) <==>
              Holds(before, ns, svc) || exists ref :: ref in refs && CrossRef(ref, routeNS) == Some((ns, svc))
  {
    byNS := before;
    for i := 0 to |refs|
      invariant NoneEmpty(byNS)
      invariant forall ns, svc :: Holds(byNS, ns, svc) <==>
                  Holds(before, ns, svc) || exists ref :: ref in refs[..i] && CrossRef(ref, routeNS) == Some((ns, svc))
    {
      hide CrossRef;
      assert refs[..i + 1] == refs[..i] + [refs[i]];
      var cross := CrossRef(refs[i], routeNS);
      if cross.None? { continue; }
      var (ns, svc) := cross.value;
      byNS := byNS[ns := (if ns in byNS then byNS[ns] else {}) + {svc}];
    }
    assert refs[..|refs|] == refs;
  }

  /** The first half of referenceGrantsForRoute: the cross-namespace refs, grouped. */
  method GroupRefs(rules: seq<Value>, routeNS: string) returns (byNS: ByNamespace)
    ensures NoneEmpty(byNS)
    ensures forall ns, svc :: Holds(byNS, ns, svc) <==> PointsAt(rules, routeNS, ns, svc)
  {
    byNS := map[];
    for i := 0 to |rules|
      invariant NoneEmpty(byNS)
      invariant forall ns, svc :: Holds(byNS, ns, svc) <==> PointsAt(rules[..i], routeNS, ns, svc)
    {
      hide CrossRef;
      var fields := Fields(rules[i]);
      var mirrors := CollectMirrors(ArrAt(fields, "filters"));
      ghost var before := byNS;
      byNS := AddRefs(ArrAt(fields, "backendRefs") + mirrors, routeNS, byNS);
      forall ns, svc ensures Holds(byNS, ns, svc) <==> PointsAt(rules[..i + 1], routeNS, ns, svc) {
        assert Holds(before, ns, svc) <==> PointsAt(rules[..i], routeNS, ns, svc);
        PointsAtOneMore(rules, i, routeNS, ns, svc);
      }
    }
    assert rules[..|rules|] == rules;
  }

  lemma PointsAtOneMore(rules: seq<Value>, i: nat, routeNS: string, ns: string, svc: string)
    requires i < |rules|
    ensures PointsAt(rules[..i + 1], routeNS, ns, svc) <==>
              || PointsAt(rules[..i], routeNS, ns, svc)
              || exists ref :: ref in RefsOf(rules[i]) && CrossRef(ref, routeNS) == Some((ns, svc))
  {
    hide CrossRef, RefsOf;
    if PointsAt(rules[..i + 1], routeNS, ns, svc) {
      var j, ref :| 0 <= j < i + 1 && ref in RefsOf(rules[..i + 1][j]) && CrossRef(ref, routeNS) == Some((ns, svc));
      if j < i { assert rules[..i][j] == rules[..i + 1][j]; }
    }
    if PointsAt(rules[..i], routeNS, ns, svc) {
      var j, ref :| 0 <= j < i && ref in RefsOf(rules[..i][j]) && CrossRef(ref, routeNS) == Some((ns, svc));
      assert ref in RefsOf(rules[..i + 1][j]);
    }
    if ref :| ref in RefsOf(rules[i]) && CrossRef(ref, routeNS) == Some((ns, svc)) {
      assert ref in RefsOf(rules[..i + 1][i]);
    }
  }

  /** referenceGrantsForRoute: for a placed route, the grants permit exactly the cross-namespace pairs its
      backendRefs and mirrors name, with one grant per namespace, namespaces and services in sorted order. */
  method ReferenceGrantsForRoute(kind: string, routeNS: string, rules: seq<Value>) returns (grants: seq<Grant>)
    ensures ExactGrants(grants, kind, routeNS, rules)
  {
    hide RefsOf;
    var byNS := GroupRefs(rules, routeNS);
    if byNS == map[] {
      assert forall ns, svc :: !Holds(byNS, ns, svc);
      return [];
    }
    if routeNS == "" { return []; }
    var namespaces := Sorting.SortedKeys(byNS.Keys);
    grants := [];
    for i := 0 to |namespaces|
      invariant |grants| == i
      invariant forall j :: 0 <= j < i ==> GrantFor(grants[j], namespaces[j], kind, routeNS, byNS)
    {
      var ns := namespaces[i];
      assert ns in Elems(namespaces);
      var services := Sorting.SortedKeys(byNS[ns]);
      grants := grants + [Grant(ns, kind, routeNS, services)];
    }
    GroupedAreExact(grants, kind, routeNS, rules, namespaces, byNS);
  }

  lemma GroupedAreExact(grants: seq<Grant>, kind: string, routeNS: string, rules: seq<Value>, namespaces: seq<string>,
                        byNS: ByNamespace)
    requires |grants| == |namespaces| && StrictlySorted(namespaces) && Elems(namespaces) == byNS.Keys
    requires forall i :: 0 <= i < |grants| ==> GrantFor(grants[i], namespaces[i], kind, routeNS, byNS)
    requires routeNS != "" && NoneEmpty(byNS)
    requires forall ns, svc :: Holds(byNS, ns, svc) <==> PointsAt(rules, routeNS, ns, svc)
    ensures ExactGrants(grants, kind, routeNS, rules)
  {
    hide RefsOf, PointsAt;
    forall ns, svc ensures Permits(grants, kind, routeNS, ns, svc) <==> PointsAt(rules, routeNS, ns, svc) {
      assert Holds(byNS, ns, svc) <==> PointsAt(rules, routeNS, ns, svc);
      if Holds(byNS, ns, svc) {
        assert ns in Elems(namespaces);
        var i :| 0 <= i < |namespaces| && namespaces[i] == ns;
        assert GrantFor(grants[i], ns, kind, routeNS, byNS);
        assert svc in Elems(grants[i].services);
      }
      if Permits(grants, kind, routeNS, ns, svc) {
        var i :| 0 <= i < |grants| && grants[i].namespace == ns && svc in grants[i].services;
        assert GrantFor(grants[i], namespaces[i], kind, routeNS, byNS);
        assert svc in Elems(grants[i].services);
      }
    }
    forall i | 0 <= i < |grants|
      ensures grants[i].namespace != routeNS && grants[i].services != [] && StrictlySorted(grants[i].services)
    {
      assert GrantFor(grants[i], namespaces[i], kind, routeNS, byNS);
      var svc :| svc in byNS[namespaces[i]];
      assert Holds(byNS, namespaces[i], svc) && svc in Elems(grants[i].services);
      CrossIsCross(rules, routeNS, namespaces[i], svc);
    }
  }

  ghost predicate GrantFor(g: Grant, ns: string, kind: string, routeNS: string, byNS: ByNamespace) {
    && ns in byNS && g.namespace == ns && g.fromKind == kind && g.fromNamespace == routeNS
    && StrictlySorted(g.services) && Elems(g.services) == byNS[ns]
  }

  lemma CrossIsCross(rules: seq<Value>, routeNS: string, ns: string, svc: string)
    requires PointsAt(rules, routeNS, ns, svc)
    ensures ns != routeNS && ns != "" && svc != ""
  {
  }

  /** The grants are one list: rules in any order, and repeated, give the same one. */
  lemma RuleOrderIsIrrelevant(a: seq<Value>, b: seq<Value>, kind: string, routeNS: string, grants: seq<Grant>,
                              others: seq<Grant>)
    requires forall r :: r in a <==> r in b
    requires ExactGrants(grants, kind, routeNS, a) && ExactGrants(others, kind, routeNS, b)
    ensures grants == others
  {
    if routeNS == "" { return; }
    hide PointsAt;
    forall ns, svc ensures Permits(grants, kind, routeNS, ns, svc) <==> Permits(others, kind, routeNS, ns, svc) {
      PairsIgnoreOrder(a, b, routeNS, ns, svc);
    }
    SameGrants(grants, others, kind, routeNS);
  }

  /** Sorted grants that permit the same pairs are the same. */
  lemma SameGrants(a: seq<Grant>, b: seq<Grant>, kind: string, routeNS: string)
    requires InOrder(a, kind, routeNS) && InOrder(b, kind, routeNS)
    requires forall ns, svc :: Permits(a, kind, routeNS, ns, svc) <==> Permits(b, kind, routeNS, ns, svc)
    ensures a == b
  {
    hide InOrder, Permits;
    forall ns ensures ns in Namespaces(a) <==> ns in Namespaces(b) {
      NamespaceIn(a, b, kind, routeNS, ns);
      NamespaceIn(b, a, kind, routeNS, ns);
    }
    NamespacesSorted(a, kind, routeNS);
    NamespacesSorted(b, kind, routeNS);
    SortedUnique(Namespaces(a), Namespaces(b));
    forall i | 0 <= i < |a| ensures a[i] == b[i] {
      assert Namespaces(a)[i] == Namespaces(b)[i];
      forall svc ensures svc in a[i].services <==> svc in b[i].services {
        ServiceAt(a, kind, routeNS, i, svc);
        ServiceAt(b, kind, routeNS, i, svc);
      }
      GrantAt(a, kind, routeNS, i);
      GrantAt(b, kind, routeNS, i);
      SortedUnique(a[i].services, b[i].services);
    }
  }

  function Namespaces(grants: seq<Grant>): seq<string> {
    seq(|grants|, i requires 0 <= i < |grants| => grants[i].namespace)
  }

  lemma NamespacesSorted(grants: seq<Grant>, kind: string, routeNS: string)
    requires InOrder(grants, kind, routeNS)
    ensures StrictlySorted(Namespaces(grants))
  {
  }

  lemma GrantAt(grants: seq<Grant>, kind: string, routeNS: string, i: nat)
    requires InOrder(grants, kind, routeNS) && i < |grants|
    ensures grants[i].fromKind == kind && grants[i].fromNamespace == routeNS && StrictlySorted(grants[i].services)
  {
  }

  lemma NamespaceIn(a: seq<Grant>, b: seq<Grant>, kind: string, routeNS: string, ns: string)
    requires InOrder(a, kind, routeNS)
    requires forall ns, svc :: Permits(a, kind, routeNS, ns, svc) <==> Permits(b, kind, routeNS, ns, svc)
    ensures ns in Namespaces(a) ==> ns in Namespaces(b)
  {
    if ns in Namespaces(a) {
      var i :| 0 <= i < |a| && Namespaces(a)[i] == ns;
      assert Permits(a, kind, routeNS, ns, a[i].services[0]);
      assert Permits(b, kind, routeNS, ns, a[i].services[0]);
      var j :| 0 <= j < |b| && b[j].namespace == ns;
      assert Namespaces(b)[j] == ns;
    }
  }

  /** There is one grant per namespace, so it holds all that is permitted there. */
  lemma ServiceAt(grants: seq<Grant>, kind: string, routeNS: string, i: nat, svc: string)
    requires InOrder(grants, kind, routeNS) && i < |grants|
    ensures svc in grants[i].services <==> Permits(grants, kind, routeNS, grants[i].namespace, svc)
  {
    if Permits(grants, kind, routeNS, grants[i].namespace, svc) {
      var j :| 0 <= j < |grants| && grants[j].namespace == grants[i].namespace && svc in grants[j].services;
      LessTrichotomy(grants[i].namespace, grants[j].namespace);
    }
  }

  lemma PairsIgnoreOrder(a: seq<Value>, b: seq<Value>, routeNS: string, ns: string, svc: string)
    requires forall r :: r in a <==> r in b
    ensures PointsAt(a, routeNS, ns, svc) <==> PointsAt(b, routeNS, ns, svc)
  {
    PointsAtSubset(a, b, routeNS, ns, svc);
    PointsAtSubset(b, a, routeNS, ns, svc);
  }

  lemma PointsAtSubset(a: seq<Value>, b: seq<Value>, routeNS: string, ns: string, svc: string)
    requires forall r :: r in a ==> r in b
    ensures PointsAt(a, routeNS, ns, svc) ==> PointsAt(b, routeNS, ns, svc)
  {
    hide RefsOf, CrossRef;
    if i, ref :| 0 <= i < |a| && ref in RefsOf(a[i]) && CrossRef(ref, routeNS) == Some((ns, svc)) {
      assert a[i] in a;
      var j :| 0 <= j < |b| && b[j] == a[i];
      assert ref in RefsOf(b[j]);
    }
  }
}
