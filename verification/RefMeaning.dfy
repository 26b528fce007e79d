/** What a converted targetRef selects (convert.go), for any policy namespace, at either level and for either target:
    read off the original ref, proxy by proxy. */
module RefMeaning {
  import opened Text
  import opened TagKeys
  import opened Targeting
  import ServiceTag

  predicate AsksService(sel: Tags) {
    SERVICE in sel || SERVICE_NAME in sel
  }

  // ---- which tags a label can express ------------------------------------------

  /** Dropped are the keys of kuma.io and the domains below it, five labels of the control plane aside. */
  lemma DroppedMeans(key: string)
    ensures Dropped(key) <==>
              && key !in {ZONE, ENV, MESH, ORIGIN, NAMESPACE}
              && exists domain, rest :: '/' !in domain && key == domain + "/" + rest && KumaDomain(domain)
  {
    hide FirstSegment;
    if '/' in key {
      FirstSegmentSplits(key);
      var domain := FirstSegment(key);
      assert key == domain + "/" + key[|domain| + 1..];
    }
    if domain, rest :| '/' !in domain && key == domain + "/" + rest && KumaDomain(domain) {
      FirstSegmentIs(domain, rest);
    }
    if Dropped(key) {
      assert KumaDomain(FirstSegment(key)) by {
        if FirstSegment(key) != "kuma.io" {
          var above := FirstSegment(key)[..|FirstSegment(key)| - |".kuma.io"|];
          assert FirstSegment(key) == above + ".kuma.io";
        }
      }
    }
  }

  ghost predicate KumaDomain(domain: string) {
    domain == "kuma.io" || exists above :: domain == above + ".kuma.io"
  }

  lemma ServiceKeyDropped()
    ensures Dropped(SERVICE)
  {
    hide FirstSegment;
    FirstSegmentIs("kuma.io", "service");
    assert SERVICE == "kuma.io" + "/" + "service";
    assert SERVICE[7] == '/';
    assert |SERVICE| == 15 && SERVICE[8] == 's';
  }

  lemma ServiceNameKeyDropped()
    ensures Dropped(SERVICE_NAME)
  {
    hide FirstSegment;
    FirstSegmentIs("k8s.kuma.io", "service-name");
    assert SERVICE_NAME == "k8s.kuma.io" + "/" + "service-name";
    assert SERVICE_NAME[11] == '/';
    assert "k8s.kuma.io"[3..] == ".kuma.io";
    assert |SERVICE_NAME| == 24;
  }

  lemma DisplayNameDropped()
    ensures Dropped(DISPLAY_NAME)
  {
    hide FirstSegment;
    FirstSegmentIs("kuma.io", "display-name");
    assert DISPLAY_NAME == "kuma.io" + "/" + "display-name";
    assert DISPLAY_NAME[7] == '/';
    assert |DISPLAY_NAME| == 20;
  }

  /** A tag, other than those that name the service, its namespace and its zone, that can be a label. */
  predicate LabelTag(k: string) {
    k !in {SERVICE, SERVICE_NAME, NAMESPACE, ZONE} && !Dropped(k)
  }

  // ---- what the original asks for ----------------------------------------------

  /** The label that names a service: a Dataplane's app, a MeshService's display name. */
  predicate NamedIn(labels: Tags, topLevel: bool, name: string) {
    Has(labels, if topLevel then APP else DISPLAY_NAME, name)
  }

  /** What a subset whose service tag is key asks of labels: the decoded name; the namespace the tag encodes, else the
      one the namespace tag gives, else the policy's; the zone; and every other tag that can be a label, except that at
      the top level the name decides what app must be. */
  ghost predicate ServiceAsked(tags: Tags, key: string, policyNamespace: string, topLevel: bool, labels: Tags)
    requires key in tags
  {
    var id := if key == SERVICE then ServiceTag.Parse(tags[key]) else ServiceTag.Identity(tags[key], "");
    var hint := TagOr(tags, NAMESPACE);
    && (id.name != "" ==> NamedIn(labels, topLevel, id.name))
    && (id.namespace != "" ==> Has(labels, NAMESPACE, id.namespace))
    && (id.namespace == "" && hint != "" ==> Has(labels, NAMESPACE, hint))
    && (id.namespace == "" && hint == "" && policyNamespace != "" ==> Has(labels, NAMESPACE, policyNamespace))
    && (TagOr(tags, ZONE) != "" ==> Has(labels, ZONE, tags[ZONE]))
    && forall k :: k in tags && LabelTag(k) && !(topLevel && k == APP && id.name != "") ==> Has(labels, k, tags[k])
  }

  /** What a subset without a service tag asks of a Dataplane's labels. */
  ghost predicate TagsAsked(tags: Tags, labels: Tags) {
    forall k :: k in tags && Askable(tags, k) ==> Has(labels, k, tags[k])
  }

  predicate Askable(tags: Tags, k: string) {
    LabelTag(k) || ((k == NAMESPACE || k == ZONE) && TagOr(tags, k) != "")
  }

  ghost predicate AsksSomething(tags: Tags) {
    exists k :: k in tags && Askable(tags, k)
  }

  /** A generated name asks for the service it encodes. A ref by name holds an empty name, too, against the labels. */
  ghost predicate NameAsked(name: string, byName: bool, topLevel: bool, labels: Tags) {
    var id := ServiceTag.Parse(name);
    && (id.name != "" || byName ==> NamedIn(labels, topLevel, id.name))
    && Has(labels, NAMESPACE, id.namespace)
  }

  // ---- the converted ref -------------------------------------------------------

  lemma LabelTagsKept()
    ensures !Dropped(ZONE) && !Dropped(NAMESPACE)
  {
  }

  lemma NameKeyApart(topLevel: bool)
    ensures NameKey(topLevel) != NAMESPACE && NameKey(topLevel) != ZONE && NAMESPACE != ZONE
    ensures !ServiceKey(NAMESPACE) && !ServiceKey(ZONE)
  {
  }

  /** The labels of a service ref, one by one. */
  lemma LabelsMean(id: ServiceTag.Identity, zone: string, extra: Tags, topLevel: bool, labels: Tags)
    requires NAMESPACE !in extra && ZONE !in extra
    ensures LabelsMatch(Labels(id, zone, extra, topLevel), labels) <==>
              && (id.name != "" ==> Has(labels, NameKey(topLevel), id.name))
              && (id.namespace != "" ==> Has(labels, NAMESPACE, id.namespace))
              && (zone != "" ==> Has(labels, ZONE, zone))
              && forall k :: k in extra && !Dropped(k) && !(k == NameKey(topLevel) && id.name != "") ==>
                   Has(labels, k, extra[k])
  {
    hide Dropped;
    var asked := Labels(id, zone, extra, topLevel);
    NameKeyApart(topLevel);
    assert id.name != "" ==> Has(asked, NameKey(topLevel), id.name);
    assert id.namespace != "" ==> Has(asked, NAMESPACE, id.namespace);
    assert zone != "" ==> Has(asked, ZONE, zone);
    if LabelsMatch(asked, labels) {
      forall k | k in extra && !Dropped(k) && !(k == NameKey(topLevel) && id.name != "")
        ensures Has(labels, k, extra[k])
      {
        assert k in Kept(extra) && k in asked && asked[k] == extra[k];
      }
    }
  }

  /** A ref that names its MeshService asks for what the labels would ask for. */
  lemma NamedIsLabelled(id: ServiceTag.Identity, p: Proxy)
    ensures Selects(Bare("MeshService").(name := NonEmpty(id.name), namespace := NonEmpty(id.namespace)), p) <==>
              LabelsMatch(Labels(id, "", map[], false), p.service)
  {
    hide Dropped;
    LabelsMean(id, "", map[], false, p.service);
    assert LabelsMatch(map[], p.service);
  }

  /** In either form, a service ref asks for its labels, and has no further fields. */
  lemma ServiceRefMeans(id: ServiceTag.Identity, zone: string, extra: Tags, policyNamespace: string, topLevel: bool,
                        v3: bool, p: Proxy)
    ensures var ref := ServiceRef(id, zone, extra, policyNamespace, topLevel, v3).0;
      && (Selects(ref, p) <==> LabelsMatch(Labels(id, zone, extra, topLevel), LabelsOf(p, topLevel)))
      && ref.kind == (if topLevel then "Dataplane" else "MeshService")
      && ref.tags == map[] && ref.mesh.None? && ref.sectionName.None?
  {
    hide Labels, LabelWarnings;
    NamedIsLabelled(id, p);
  }

  /** A top-level ref selects Dataplanes, another one MeshServices, and nothing of the subset is left but what it
      selects. */
  predicate NewRef(out: TargetRef, topLevel: bool) {
    && out.kind == (if topLevel then "Dataplane" else "MeshService")
    && out.tags == map[] && out.mesh.None?
  }

  /** The name of a MeshService that the control plane generated from a service tag. */
  predicate Generated(ref: TargetRef) {
    ref.kind == "MeshService" && ref.name.Some? && ServiceTag.Parse(ref.name.value).namespace != ""
  }

  /** What a converted ref must be to stand for the original: the same ref where nothing is to be converted, and
      otherwise one that selects exactly the proxies the original asks for. */
  ghost predicate StandsFor(ref: TargetRef, policyNamespace: string, topLevel: bool, v3: bool, out: TargetRef) {
    if ref.kind !in {"MeshSubset", "MeshServiceSubset"} then
      if Generated(ref) then GeneratedStandsFor(ref, policyNamespace, topLevel, v3, out) else out == ref
    else if AsksService(ref.tags) then
      || (SERVICE in ref.tags && ServiceStandsFor(ref.tags, SERVICE, policyNamespace, topLevel, out))
      || (SERVICE_NAME in ref.tags && ServiceStandsFor(ref.tags, SERVICE_NAME, policyNamespace, topLevel, out))
    else if topLevel && AsksSomething(ref.tags) then
      NewRef(out, true) && out.sectionName.None? && forall p :: Selects(out, p) <==> TagsAsked(ref.tags, p.labels)
    else if v3 then topLevel && ref.tags == map[] && out == Bare("Mesh")
    else out == ref
  }

  ghost predicate ServiceStandsFor(tags: Tags, key: string, policyNamespace: string, topLevel: bool, out: TargetRef)
    requires key in tags
  {
    if tags[key] == "*" then out == Bare("Mesh")
    else
      && NewRef(out, topLevel) && out.sectionName.None?
      && forall p :: Selects(out, p) <==> ServiceAsked(tags, key, policyNamespace, topLevel, LabelsOf(p, topLevel))
  }

  /** A half-migrated name keeps its sectionName. On 2.x it stays a name unless the policy is in another namespace. */
  ghost predicate GeneratedStandsFor(ref: TargetRef, policyNamespace: string, topLevel: bool, v3: bool, out: TargetRef)
    requires ref.name.Some?
  {
    var namespace := ServiceTag.Parse(ref.name.value).namespace;
    var byName := !v3 && !topLevel && (policyNamespace == "" || policyNamespace == namespace);
    && NewRef(out, topLevel) && out.sectionName == ref.sectionName
    && forall p :: Selects(out, p) <==> NameAsked(ref.name.value, byName, topLevel, LabelsOf(p, topLevel))
  }

  /** Every conversion that succeeds gives a ref that stands for the original. */
  lemma ConvertedStandsFor(ref: TargetRef, policyNamespace: string, topLevel: bool, v3: bool, nameLast: bool)
    requires ConvertRefFor(ref, policyNamespace, topLevel, v3, nameLast).Ok?
    ensures StandsFor(ref, policyNamespace, topLevel, v3,
                      ConvertRefFor(ref, policyNamespace, topLevel, v3, nameLast).value.0)
  {
    hide ServiceStandsFor, GeneratedStandsFor, ServiceRef, ServiceTag.Parse, ConvertOldName, TagsAsked, Askable, Kept,
        DroppedOf, OtherTags, NewRef;
    var out := ConvertRefFor(ref, policyNamespace, topLevel, v3, nameLast).value.0;
    if SubsetKind(ref.kind) {
      var key := DecidingKey(ref.tags, nameLast);
      if key.Some? {
        ServiceSubset(ref, policyNamespace, topLevel, v3, nameLast);
      } else if topLevel {
        TagSubset(ref, policyNamespace, v3, nameLast);
      }
    } else if OldServiceName(ref) {
      HalfMigrated(ref, policyNamespace, topLevel, v3, nameLast);
    }
  }

  lemma ServiceSubset(ref: TargetRef, policyNamespace: string, topLevel: bool, v3: bool, nameLast: bool)
    requires SubsetKind(ref.kind) && DecidingKey(ref.tags, nameLast).Some?
    ensures var r := ConvertRefFor(ref, policyNamespace, topLevel, v3, nameLast);
      r.Ok? && ServiceStandsFor(ref.tags, DecidingKey(ref.tags, nameLast).value, policyNamespace, topLevel, r.value.0)
  {
    hide ServiceRef, ServiceTag.Parse, Labels, OtherTags, Dropped, ServiceAsked, Selects, Resolve;
    var key, tags := DecidingKey(ref.tags, nameLast).value, ref.tags;
    if tags[key] != "*" {
      var id := Resolve(key, tags[key], TagOr(tags, NAMESPACE), policyNamespace);
      var out := ServiceRef(id, TagOr(tags, ZONE), OtherTags(tags), policyNamespace, topLevel, v3).0;
      var nobody := Proxy(map[], map[], map[]);
      ServiceRefMeans(id, TagOr(tags, ZONE), OtherTags(tags), policyNamespace, topLevel, v3, nobody);
      forall p ensures Selects(out, p) <==> ServiceAsked(tags, key, policyNamespace, topLevel, LabelsOf(p, topLevel)) {
        ServiceRefMeans(id, TagOr(tags, ZONE), OtherTags(tags), policyNamespace, topLevel, v3, p);
        LabelsAreAsked(tags, key, policyNamespace, topLevel, LabelsOf(p, topLevel));
      }
    }
  }

  lemma LabelsAreAsked(tags: Tags, key: string, policyNamespace: string, topLevel: bool, labels: Tags)
    requires ServiceKey(key) && key in tags
    ensures LabelsMatch(Labels(Resolve(key, tags[key], TagOr(tags, NAMESPACE), policyNamespace), TagOr(tags, ZONE),
                               OtherTags(tags), topLevel), labels)
       <==> ServiceAsked(tags, key, policyNamespace, topLevel, labels)
  {
    hide Dropped, ServiceTag.Parse, Labels;
    LabelsMean(Resolve(key, tags[key], TagOr(tags, NAMESPACE), policyNamespace), TagOr(tags, ZONE), OtherTags(tags),
      topLevel, labels);
    assert SERVICE != SERVICE_NAME by { assert |SERVICE| != |SERVICE_NAME|; }
    DisplayNameDropped();
    assert forall k :: k in tags && LabelTag(k) <==> k in OtherTags(tags) && !Dropped(k);
  }

  lemma HalfMigrated(ref: TargetRef, policyNamespace: string, topLevel: bool, v3: bool, nameLast: bool)
    requires !SubsetKind(ref.kind) && OldServiceName(ref)
    ensures var r := ConvertRefFor(ref, policyNamespace, topLevel, v3, nameLast);
      r.Ok? && GeneratedStandsFor(ref, policyNamespace, topLevel, v3, r.value.0)
  {
    hide ServiceTag.Parse, Labels, Dropped, LabelWarnings, Selects, NameAsked;
    var out := ConvertOldName(ref, policyNamespace, topLevel, v3).0;
    var id := ServiceTag.Parse(ref.name.value);
    var byName := !v3 && !topLevel && (policyNamespace == "" || policyNamespace == id.namespace);
    forall p ensures Selects(out, p) <==> NameAsked(ref.name.value, byName, topLevel, LabelsOf(p, topLevel)) {
      NameMeans(ref, policyNamespace, topLevel, v3, p);
    }
  }

  lemma NameMeans(ref: TargetRef, policyNamespace: string, topLevel: bool, v3: bool, p: Proxy)
    requires OldServiceName(ref)
    ensures var id := ServiceTag.Parse(ref.name.value);
      var byName := !v3 && !topLevel && (policyNamespace == "" || policyNamespace == id.namespace);
      Selects(ConvertOldName(ref, policyNamespace, topLevel, v3).0, p) <==>
        NameAsked(ref.name.value, byName, topLevel, LabelsOf(p, topLevel))
  {
    hide ServiceTag.Parse, Dropped, LabelWarnings, Labels;
    var id := ServiceTag.Parse(ref.name.value);
    LabelsMean(id, "", map[], topLevel, LabelsOf(p, topLevel));
    assert LabelsMatch(map[], p.service);
  }

  lemma TagSubset(ref: TargetRef, policyNamespace: string, v3: bool, nameLast: bool)
    requires SubsetKind(ref.kind) && !AsksService(ref.tags)
    requires ConvertRefFor(ref, policyNamespace, true, v3, nameLast).Ok?
    ensures StandsFor(ref, policyNamespace, true, v3, ConvertRefFor(ref, policyNamespace, true, v3, nameLast).value.0)
  {
    hide Dropped, ServiceTag.Parse, Askable, Kept, OtherTags, DropWarning, TagsAsked, AsksSomething;
    var tags := ref.tags;
    var out := ConvertRefFor(ref, policyNamespace, true, v3, nameLast).value.0;
    AskedLabels(tags);
    forall p ensures Selects(Labelled("Dataplane", TagLabels(tags), None), p) <==> TagsAsked(tags, p.labels) {
      AskedBy(tags, p.labels);
    }
  }

  function TagLabels(tags: Tags): Tags {
    Put(Put(Kept(OtherTags(tags)), NAMESPACE, TagOr(tags, NAMESPACE)), ZONE, TagOr(tags, ZONE))
  }

  lemma AskedLabels(tags: Tags)
    requires !AsksService(tags)
    ensures forall k :: k in TagLabels(tags) <==> k in tags && Askable(tags, k)
    ensures forall k :: k in TagLabels(tags) ==> TagLabels(tags)[k] == tags[k]
    ensures TagLabels(tags) == map[] <==> !AsksSomething(tags)
  {
    hide Dropped;
    NameKeyApart(true);
    var labels := TagLabels(tags);
    assert forall k :: k in labels <==> k in tags && Askable(tags, k);
    if labels != map[] { var k :| k in labels; assert Askable(tags, k); }
  }

  lemma AskedBy(tags: Tags, labels: Tags)
    requires !AsksService(tags)
    ensures LabelsMatch(TagLabels(tags), labels) <==> TagsAsked(tags, labels)
  {
    hide Askable, TagLabels;
    AskedLabels(tags);
  }

  /** A conversion fails exactly on 3.0, for a subset without a service tag: in to[] and from[] always, at the top level
      when it has tags and none can be a label. */
  lemma ConversionFails(ref: TargetRef, policyNamespace: string, topLevel: bool, v3: bool, nameLast: bool)
    ensures ConvertRefFor(ref, policyNamespace, topLevel, v3, nameLast).Err? <==>
              && v3 && ref.kind in {"MeshSubset", "MeshServiceSubset"} && !AsksService(ref.tags)
              && !(topLevel && (ref.tags == map[] || AsksSomething(ref.tags)))
  {
    hide Dropped, ServiceTag.Parse, ServiceRef;
    var tags, r := ref.tags, ConvertRefFor(ref, policyNamespace, topLevel, v3, nameLast);
    if SubsetKind(ref.kind) {
      if AsksService(tags) {
        ServiceSubset(ref, policyNamespace, topLevel, v3, nameLast);
      } else if topLevel {
        AskedLabels(tags);
      }
    } else if OldServiceName(ref) {
      HalfMigrated(ref, policyNamespace, topLevel, v3, nameLast);
    }
  }

  // ---- what is warned about ----------------------------------------------------

  /** The advisories name this tag as dropped. */
  ghost predicate Warned(warn: seq<Warning>, k: string, value: string) {
    exists i :: 0 <= i < |warn| && warn[i].DroppedTags? && Has(warn[i].dropped, k, value)
  }

  ghost predicate GuessesApp(warn: seq<Warning>) {
    exists i :: 0 <= i < |warn| && warn[i].BestGuessApp?
  }

  /** A subset that becomes labels loses no tag without a word, and a service at the top level is announced as a
      guess. */
  lemma LossIsWarned(ref: TargetRef, policyNamespace: string, topLevel: bool, v3: bool, nameLast: bool)
    requires ref.kind in {"MeshSubset", "MeshServiceSubset"}
    requires ConvertRefFor(ref, policyNamespace, topLevel, v3, nameLast).Ok?
    ensures var (out, warn) := ConvertRefFor(ref, policyNamespace, topLevel, v3, nameLast).value;
      && (out.kind in {"Dataplane", "MeshService"} ==> forall k, v :: Warned(warn, k, v) <==>
           Has(ref.tags, k, v) && k !in {SERVICE, SERVICE_NAME, NAMESPACE, ZONE} && Dropped(k))
      && (GuessesApp(warn) <==> topLevel && AsksService(ref.tags) && out.kind == "Dataplane")
      && WarningsAre(warn, out.labels)
  {
    hide Dropped, ServiceTag.Parse, Labels, Resolve, DropWarning, DroppedOf, Warned, GuessesApp, WarningsAre;
    var (out, warn) := ConvertRefFor(ref, policyNamespace, topLevel, v3, nameLast).value;
    var key, others := DecidingKey(ref.tags, nameLast), OtherTags(ref.tags);
    LostTags(ref.tags);
    WarningsMean([], others, out.labels);
    WarningsMean([], map[], out.labels);
    assert [] + DropWarning(others) == DropWarning(others) && [] + DropWarning(map[]) == DropWarning(map[]);
    NothingWarned();
    if key.Some? {
      var id := Resolve(key.value, ref.tags[key.value], TagOr(ref.tags, NAMESPACE), policyNamespace);
      var guess := [BestGuessApp(id.name, id.namespace == "")];
      WarningsMean(guess, others, Labels(id, TagOr(ref.tags, ZONE), others, true));
      WarningsMean(guess, map[], Labels(id, "", map[], true));
      GuessedLabels(id, TagOr(ref.tags, ZONE), others);
      GuessedLabels(id, "", map[]);
    }
  }

  /** No warning is empty; the app that is announced is the label that was written, and Universal the lack of a
      namespace. */
  predicate WarningsAre(warn: seq<Warning>, labels: Tags) {
    && (forall w :: w in warn && w.DroppedTags? ==> w.dropped != map[])
    && forall w :: w in warn && w.BestGuessApp? ==>
         (w.name != "" ==> Has(labels, APP, w.name)) && (w.onUniversal <==> NAMESPACE !in labels)
  }

  lemma GuessedLabels(id: ServiceTag.Identity, zone: string, extra: Tags)
    requires NAMESPACE !in extra
    ensures WarningsAre([BestGuessApp(id.name, id.namespace == "")], Labels(id, zone, extra, true))
  {
    hide Dropped;
    NameKeyApart(true);
  }

  lemma LostTags(tags: Tags)
    ensures forall k, v :: Has(DroppedOf(OtherTags(tags)), k, v) <==>
              Has(tags, k, v) && k !in {SERVICE, SERVICE_NAME, NAMESPACE, ZONE} && Dropped(k)
    ensures DroppedOf(map[]) == map[]
  {
    hide Dropped;
  }

  lemma NothingWarned()
    ensures !GuessesApp([]) && (forall k, v :: !Warned([], k, v)) && forall labels :: WarningsAre([], labels)
  {
  }

  lemma WarningsMean(lead: seq<Warning>, others: Tags, labels: Tags)
    requires |lead| <= 1 && forall w :: w in lead ==> w.BestGuessApp?
    ensures GuessesApp(lead + DropWarning(others)) <==> lead != []
    ensures WarningsAre(lead + DropWarning(others), labels) <==> WarningsAre(lead, labels)
    ensures forall k, v :: Warned(lead + DropWarning(others), k, v) <==> Has(DroppedOf(others), k, v)
  {
    hide Dropped;
    var warn := lead + DropWarning(others);
    assert forall i :: 0 <= i < |lead| ==> warn[i] == lead[i] && lead[i] in lead;
    forall k, v | Has(DroppedOf(others), k, v) ensures Warned(warn, k, v) {
      assert warn[|lead|] == DroppedTags(DroppedOf(others));
    }
    if lead != [] { assert warn[0] == lead[0]; }
    assert forall w :: w in lead ==> w in warn;
  }
}
