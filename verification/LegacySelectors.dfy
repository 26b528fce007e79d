/** What a converted legacy selector selects: never less than before, and exactly as much when the
    selector loses nothing on the way. */
module LegacySelectors {
  import opened Text
  import opened TagKeys
  import opened Targeting
  import opened RefMeaning
  import ServiceTag

  // ---- coverage --------------------------------------------------------------

  /** The converted ref reads labels: not so when the selector becomes the mesh, or stays a subset on 2.x. */
  predicate NeedsLabels(sel: Tags, v3: bool) {
    && sel != map[] && !Has(sel, SERVICE, "*") && (v3 || SERVICE in sel)
    && (SERVICE in sel || !Has(sel, SERVICE_NAME, "*"))
  }

  lemma LabelsCover(key: string, zone: string, extra: Tags, topLevel: bool, sel: Tags, p: Proxy)
    requires Carries(sel, p, topLevel) && TagsMatch(sel, p.tags)
    requires ServiceKey(key) && key in sel && sel[key] != "*"
    requires zone == "" || Has(sel, ZONE, zone)
    requires forall k :: k in extra ==> k in OtherTags(sel) && extra[k] == sel[k]
    ensures LabelsMatch(Labels(Resolve(key, sel[key], TagOr(sel, NAMESPACE), ""), zone, extra, topLevel),
                        LabelsOf(p, topLevel))
  {
    hide Dropped, ServiceTag.Parse;
    var id := Resolve(key, sel[key], TagOr(sel, NAMESPACE), "");
    assert Has(p.tags, key, sel[key]);
    assert NAMESPACE in sel ==> Has(p.tags, NAMESPACE, sel[NAMESPACE]);
    assert zone != "" ==> Has(p.tags, ZONE, zone);
    LabelTagsKept();
    forall k | k in Kept(extra) ensures Has(p.tags, k, extra[k]) && !Dropped(k) {
      assert k in OtherTags(sel);
    }
  }

  lemma ServiceRefCovers(key: string, topLevel: bool, v3: bool, sel: Tags, p: Proxy)
    requires Carries(sel, p, topLevel) && TagsMatch(sel, p.tags)
    requires ServiceKey(key) && key in sel && sel[key] != "*"
    ensures Selects(ServiceRef(Resolve(key, sel[key], TagOr(sel, NAMESPACE), ""), TagOr(sel, ZONE),
                               OtherTags(sel), "", topLevel, v3).0, p)
  {
    hide Labels, Dropped, ServiceTag.Parse;
    var id := Resolve(key, sel[key], TagOr(sel, NAMESPACE), "");
    var zone, extra := TagOr(sel, ZONE), OtherTags(sel);
    LabelsCover(key, zone, extra, topLevel, sel, p);
    LabelsCover(key, "", map[], topLevel, sel, p);
    LabelTagsKept();
    assert Has(p.tags, key, sel[key]);
    assert NAMESPACE in sel ==> Has(p.tags, NAMESPACE, sel[NAMESPACE]);
  }

  lemma TagSelectorCovers(sel: Tags, p: Proxy)
    requires Carries(sel, p, true) && TagsMatch(sel, p.tags) && SERVICE !in sel
    ensures LabelsMatch(Put(Put(Kept(OtherTags(sel)), NAMESPACE, TagOr(sel, NAMESPACE)), ZONE, TagOr(sel, ZONE)),
                        p.labels)
  {
    hide Dropped;
    LabelTagsKept();
    assert NAMESPACE in sel ==> Has(p.tags, NAMESPACE, sel[NAMESPACE]);
    assert ZONE in sel ==> Has(p.tags, ZONE, sel[ZONE]);
    forall k | k in Kept(OtherTags(sel)) ensures Has(p.tags, k, sel[k]) && !Dropped(k) {
      assert k in OtherTags(sel);
    }
  }

  lemma SelectorCoversBy(sel: Tags, topLevel: bool, v3: bool, nameLast: bool, p: Proxy)
    requires ConvertSelector(sel, "", topLevel, v3, nameLast).Ok?
    requires (NeedsLabels(sel, v3) ==> Carries(sel, p, topLevel)) && TagsMatch(sel, p.tags)
    ensures Selects(ConvertSelector(sel, "", topLevel, v3, nameLast).value.0, p)
  {
    if !NeedsLabels(sel, v3) { return; }
    hide Dropped, ServiceTag.Parse, ServiceRef, Carries, Resolve, TagsMatch, OtherTags, Kept, DroppedOf;
    var key := DecidingKey(sel, nameLast);
    if key.Some? && sel[key.value] != "*" {
      ServiceRefCovers(key.value, topLevel, v3, sel, p);
    } else if key.None? && topLevel {
      TagSelectorCovers(sel, p);
    }
  }

  /** Coverage: a proxy the legacy selector matched is selected by the converted ref; when the ref reads labels, the
      proxy must carry them. */
  lemma SelectorCovers(sel: Tags, topLevel: bool, v3: bool, r: Converted, p: Proxy)
    requires SelectorConverts(sel, "", topLevel, v3, r) && r.Ok?
    requires (NeedsLabels(sel, v3) ==> Carries(sel, p, topLevel)) && TagsMatch(sel, p.tags)
    ensures Selects(r.value.0, p)
  {
    hide ConvertSelector, Selects, Carries, TagsMatch, NeedsLabels;
    if r == ConvertSelector(sel, "", topLevel, v3, false) {
      SelectorCoversBy(sel, topLevel, v3, false, p);
    } else {
      SelectorCoversBy(sel, topLevel, v3, true, p);
    }
  }

  lemma FromSubsetExact(sel: Tags, p: Proxy)
    ensures Selects(FromSubset(sel), p) <==> TagsMatch(sel, p.tags)
    ensures FromSubset(sel) == Bare("Mesh") <==> sel == map[] || sel == map[SERVICE := "*"]
  {
    var tags := WithoutServiceStar(sel);
    forall k | k in sel && !(k == SERVICE && sel[k] == "*")
      ensures k in tags && tags[k] == sel[k]
    {}
    assert TagsMatch(tags, p.tags) <==> TagsMatch(sel, p.tags);
    if tags == map[] && sel != map[] { assert sel.Keys == {SERVICE}; }
  }

  // ---- exactness -------------------------------------------------------------

  /** Labels the control plane adds to every Dataplane and MeshService, which are no inbound tags. */
  predicate ControlPlaneKey(k: string) {
    k == MESH || k == ENV || k == ORIGIN
  }

  /** The labels name the service that the service tag decodes to. A proxy without a decoded namespace (Universal) has
      none in its labels either. */
  ghost predicate NamedAsTagged(tags: Tags, labels: Tags, nameKey: string) {
    && SERVICE in tags
    && var id := ServiceTag.Parse(tags[SERVICE]);
       && id.name != "" && Has(labels, nameKey, id.name) && (SERVICE_NAME in tags ==> tags[SERVICE_NAME] == id.name)
       && (if id.namespace != "" then Has(labels, NAMESPACE, id.namespace) && Has(tags, NAMESPACE, id.namespace)
           else NAMESPACE !in labels && NAMESPACE !in tags)
  }

  /** What a proxy's labels have in common with its tags: for the keys of a selector they mirror the tags, and if it
      asks for a service they name the proxy's. Any other label is free, and so are the control plane's own. */
  ghost predicate Mirrored(sel: Tags, tags: Tags, labels: Tags, nameKey: string) {
    && (AsksService(sel) ==> NamedAsTagged(tags, labels, nameKey))
    && forall k :: k in sel && !Dropped(k) && !ControlPlaneKey(k) ==>
         (k in tags <==> k in labels) && (k in tags ==> tags[k] == labels[k])
  }

  /** The name the selector's service tag gives its service. */
  function ServiceName(sel: Tags): string {
    if SERVICE in sel then ServiceTag.Parse(sel[SERVICE]).name else TagOr(sel, SERVICE_NAME)
  }

  /** Nothing of the selector but the port is lost: no dropped tag, no tag that only a label of the control plane could
      match, no '*' next to other tags, one service, and no other name or namespace for it. With both service keys the
      tag must decode to the name, and its namespace be given too: the name alone may decide. */
  predicate Lossless(sel: Tags, topLevel: bool) {
    && (forall k :: k in sel && !ServiceKey(k) ==>
          && !Dropped(k) && !ControlPlaneKey(k)
          && (k == NameKey(topLevel) && AsksService(sel) ==> sel[k] == ServiceName(sel)))
    && (NAMESPACE in sel ==> sel[NAMESPACE] != "") && (ZONE in sel ==> sel[ZONE] != "")
    && (Has(sel, SERVICE, "*") ==> sel == map[SERVICE := "*"])
    && (SERVICE in sel && SERVICE_NAME in sel ==>
          sel[SERVICE_NAME] == ServiceName(sel) && (ServiceTag.Encoded(sel[SERVICE]) ==> NAMESPACE in sel))
    && (SERVICE_NAME in sel ==> sel[SERVICE_NAME] != "" && sel[SERVICE_NAME] != "*")
    && (SERVICE in sel && sel[SERVICE] != "*" ==>
          var id := ServiceTag.Parse(sel[SERVICE]);
          id.name != "" && (id.namespace != "" && NAMESPACE in sel ==> sel[NAMESPACE] == id.namespace))
  }

  /** The service asked for is the one given: the same name and the same namespace, as far as they are asked for. */
  predicate SameService(asked: ServiceTag.Identity, given: ServiceTag.Identity) {
    (asked.name == "" || asked.name == given.name) && (asked.namespace == "" || asked.namespace == given.namespace)
  }

  /** The tag selector with its service tags read as the service they decode to, whatever its port; all other tags are
      compared by value. */
  ghost predicate MatchByService(sel: Tags, tags: Tags) {
    forall k :: k in sel ==> KeyMatches(k, sel[k], tags)
  }

  predicate KeyMatches(k: string, value: string, tags: Tags) {
    if k == SERVICE then
      value == "*" || (SERVICE in tags && SameService(ServiceTag.Parse(value), ServiceTag.Parse(tags[SERVICE])))
    else if k == SERVICE_NAME then
      SERVICE in tags && SameService(ServiceTag.Identity(value, ""), ServiceTag.Parse(tags[SERVICE]))
    else Has(tags, k, value)
  }

  /** The selector stands for everyone, or survives as a subset on 2.x, or it is lossless and the proxy mirrored. */
  ghost predicate ExactOn(sel: Tags, topLevel: bool, v3: bool, p: Proxy) {
    || sel == map[] || sel == map[SERVICE := "*"] || (!v3 && SERVICE !in sel)
    || (Mirrored(sel, p.tags, LabelsOf(p, topLevel), NameKey(topLevel)) && Lossless(sel, topLevel))
  }

  /** What the converted selector asks of a proxy's tags. */
  ghost predicate Meant(sel: Tags, v3: bool, tags: Tags) {
    if !v3 && SERVICE !in sel then TagsMatch(sel, tags) else MatchByService(sel, tags)
  }

  /** On a mirrored proxy, the labels of a lossless selector's service are what the selector asks of the tags. */
  lemma ServiceLabelsExact(key: string, sel: Tags, topLevel: bool, p: Proxy)
    requires Mirrored(sel, p.tags, LabelsOf(p, topLevel), NameKey(topLevel)) && Lossless(sel, topLevel)
    requires ServiceKey(key) && key in sel && sel[key] != "*"
    ensures var id := Resolve(key, sel[key], TagOr(sel, NAMESPACE), "");
      && id.name != ""
      && (LabelsMatch(Labels(id, TagOr(sel, ZONE), OtherTags(sel), topLevel), LabelsOf(p, topLevel)) <==>
            MatchByService(sel, p.tags))
  {
    hide Dropped, ServiceTag.Parse, ControlPlaneKey, Labels;
    var id, labels := Resolve(key, sel[key], TagOr(sel, NAMESPACE), ""), LabelsOf(p, topLevel);
    var extra := OtherTags(sel);
    LabelTagsKept();
    NameKeyApart(topLevel);
    ServiceKeysApart();
    LabelsMean(id, TagOr(sel, ZONE), extra, topLevel, labels);
    forall k | k in extra ensures !Dropped(k) && (Has(labels, k, extra[k]) <==> Has(p.tags, k, sel[k])) {}
    assert ZONE in sel ==> (Has(labels, ZONE, sel[ZONE]) <==> Has(p.tags, ZONE, sel[ZONE]));
    if MatchByService(sel, p.tags) {
      assert NAMESPACE in sel ==> Has(p.tags, NAMESPACE, sel[NAMESPACE]);
    } else {
      var k :| k in sel && !KeyMatches(k, sel[k], p.tags);
      assert k in extra || k == ZONE || k == NAMESPACE || ServiceKey(k);
    }
  }

  lemma ServiceKeysApart()
    ensures SERVICE != SERVICE_NAME && !ControlPlaneKey(ZONE) && !ControlPlaneKey(NAMESPACE)
    ensures !ControlPlaneKey(APP) && !ControlPlaneKey(DISPLAY_NAME)
  {
  }

  /** On a mirrored proxy, tags without a service are mirrored one by one. */
  lemma TagSelectorExact(sel: Tags, p: Proxy)
    requires Mirrored(sel, p.tags, p.labels, APP) && Lossless(sel, true)
    requires SERVICE !in sel && SERVICE_NAME !in sel
    ensures LabelsMatch(Put(Put(Kept(OtherTags(sel)), NAMESPACE, TagOr(sel, NAMESPACE)), ZONE, TagOr(sel, ZONE)),
                        p.labels)
       <==> MatchByService(sel, p.tags)
  {
    hide Dropped, ControlPlaneKey, ServiceTag.Parse;
    var labels := Put(Put(Kept(OtherTags(sel)), NAMESPACE, TagOr(sel, NAMESPACE)), ZONE, TagOr(sel, ZONE));
    LabelTagsKept();
    NameKeyApart(true);
    ServiceKeysApart();
    assert labels == sel;
    forall k | k in sel ensures Has(p.labels, k, sel[k]) <==> Has(p.tags, k, sel[k]) {}
  }

  /** Exactness: on a mirrored proxy, of Kubernetes or Universal, the converted ref selects exactly what the selector
      asks for with its service tags read as services. */
  lemma SelectorExact(sel: Tags, topLevel: bool, v3: bool, r: Converted, p: Proxy)
    requires SelectorConverts(sel, "", topLevel, v3, r) && r.Ok?
    requires ExactOn(sel, topLevel, v3, p)
    ensures Selects(r.value.0, p) <==> Meant(sel, v3, p.tags)
  {
    if r == ConvertSelector(sel, "", topLevel, v3, false) {
      SelectorExactBy(sel, topLevel, v3, false, p);
    } else {
      SelectorExactBy(sel, topLevel, v3, true, p);
    }
  }

  lemma SelectorExactBy(sel: Tags, topLevel: bool, v3: bool, nameLast: bool, p: Proxy)
    requires ConvertSelector(sel, "", topLevel, v3, nameLast).Ok?
    requires ExactOn(sel, topLevel, v3, p)
    ensures Selects(ConvertSelector(sel, "", topLevel, v3, nameLast).value.0, p) <==> Meant(sel, v3, p.tags)
  {
    hide Dropped, ServiceTag.Parse, ServiceRef, Resolve, Mirrored, Labels, Kept, DroppedOf, OtherTags;
    if sel == map[] || Has(sel, SERVICE, "*") || (!v3 && SERVICE !in sel) {
      EasySelectors(sel, topLevel, v3, nameLast, p);
    } else {
      var key := DecidingKey(sel, nameLast);
      if key.Some? {
        var id := Resolve(key.value, sel[key.value], TagOr(sel, NAMESPACE), "");
        ServiceLabelsExact(key.value, sel, topLevel, p);
        ServiceRefMeans(id, TagOr(sel, ZONE), OtherTags(sel), "", topLevel, v3, p);
      } else if topLevel {
        TagSelectorExact(sel, p);
        SomeLabel(sel);
      }
    }
  }

  /** The mesh, and the subsets 2.x keeps. */
  lemma EasySelectors(sel: Tags, topLevel: bool, v3: bool, nameLast: bool, p: Proxy)
    requires sel == map[] || Has(sel, SERVICE, "*") || (!v3 && SERVICE !in sel)
    requires ExactOn(sel, topLevel, v3, p)
    ensures ConvertSelector(sel, "", topLevel, v3, nameLast).Ok?
    ensures Selects(ConvertSelector(sel, "", topLevel, v3, nameLast).value.0, p) <==> Meant(sel, v3, p.tags)
  {
  }

  lemma SomeLabel(sel: Tags)
    requires Lossless(sel, true) && sel != map[] && SERVICE !in sel && SERVICE_NAME !in sel
    ensures Put(Put(Kept(OtherTags(sel)), NAMESPACE, TagOr(sel, NAMESPACE)), ZONE, TagOr(sel, ZONE)) == sel
  {
    hide Dropped, ControlPlaneKey;
    NameKeyApart(true);
  }

  // ---- every selector ----------------------------------------------------------

  /** A key of the selector that its ref asks a proxy's tags about; key is the service tag that decides. Not so the
      tags that are no labels, empty namespaces and zones, a namespace next to a tag that encodes one and, at the top
      level, an app next to a service. */
  predicate Expressible(sel: Tags, topLevel: bool, key: Option<string>, k: string)
    requires k in sel && (key.Some? ==> key.value in sel)
  {
    if k == SERVICE || k == SERVICE_NAME then key == Some(k)
    else
      && !Dropped(k) && !ControlPlaneKey(k)
      && (k == NAMESPACE || k == ZONE ==> sel[k] != "")
      && (k == NAMESPACE ==> !(key == Some(SERVICE) && ServiceTag.Encoded(sel[SERVICE])))
      && (k == APP && topLevel && key.Some? ==> DecodedName(key.value, sel[key.value]) == "")
  }

  function DecodedName(key: string, value: string): string {
    if key == SERVICE then ServiceTag.Parse(value).name else value
  }

  function Expressed(sel: Tags, topLevel: bool, key: Option<string>): Tags
    requires key.Some? ==> key.value in sel
  {
    map k | k in sel && Expressible(sel, topLevel, key, k) :: sel[k]
  }

  /** The proxy matches what of the selector a label can express; keys of the control plane are labels only. */
  ghost predicate MatchesExpressed(sel: Tags, topLevel: bool, key: Option<string>, p: Proxy)
    requires key.Some? ==> key.value in sel
  {
    && MatchByService(Expressed(sel, topLevel, key), p.tags)
    && forall k :: k in sel && ControlPlaneKey(k) ==> Has(LabelsOf(p, topLevel), k, sel[k])
  }

  /** Whom the ref of a selector selects, whatever it loses: everyone for no tags and for '*', whom it matched where 2.x
      keeps it, and otherwise the proxies that match what a label can express. With both service keys either decides. */
  ghost predicate Picks(sel: Tags, topLevel: bool, v3: bool, nameLast: bool, p: Proxy) {
    if sel == map[] || Has(sel, SERVICE, "*") then true
    else if !v3 && SERVICE !in sel then TagsMatch(sel, p.tags)
    else
      var key := DecidingKey(sel, nameLast);
      (key.Some? && sel[key.value] == "*") || MatchesExpressed(sel, topLevel, key, p)
  }

  /** Where the ref reads labels, they mirror the tags the selector asks about. */
  ghost predicate MirroredFor(sel: Tags, topLevel: bool, v3: bool, p: Proxy) {
    NeedsLabels(sel, v3) ==> Mirrored(sel, p.tags, LabelsOf(p, topLevel), NameKey(topLevel))
  }

  /** Exactly these, for every selector that has an equivalent, lossless or not. */
  lemma SelectorMeans(sel: Tags, topLevel: bool, v3: bool, nameLast: bool, p: Proxy)
    requires ConvertSelector(sel, "", topLevel, v3, nameLast).Ok? && MirroredFor(sel, topLevel, v3, p)
    ensures Selects(ConvertSelector(sel, "", topLevel, v3, nameLast).value.0, p) <==>
              Picks(sel, topLevel, v3, nameLast, p)
  {
    hide Dropped, ServiceTag.Parse, ServiceRef, Mirrored, ServiceAsked, TagsAsked, MatchesExpressed, Askable, TagsMatch,
        AsksSomething, Resolve, Labels;
    var key := DecidingKey(sel, nameLast);
    if sel == map[] || Has(sel, SERVICE, "*") || (!v3 && SERVICE !in sel) {
    } else if key.Some? {
      ServiceSubset(Bare("MeshSubset").(tags := sel), "", topLevel, v3, nameLast);
      if sel[key.value] != "*" { AskedIsMatched(sel, key.value, topLevel, p); }
    } else {
      ConversionFails(Bare("MeshSubset").(tags := sel), "", topLevel, v3, nameLast);
      TagSubset(Bare("MeshSubset").(tags := sel), "", v3, nameLast);
      TagsAreMatched(sel, p);
    }
  }

  lemma AskedIsMatched(sel: Tags, key: string, topLevel: bool, p: Proxy)
    requires ServiceKey(key) && key in sel && sel[key] != "*"
    requires Mirrored(sel, p.tags, LabelsOf(p, topLevel), NameKey(topLevel))
    ensures ServiceAsked(sel, key, "", topLevel, LabelsOf(p, topLevel)) <==>
              MatchesExpressed(sel, topLevel, Some(key), p)
  {
    hide Dropped, ServiceTag.Parse, ControlPlaneKey;
    LabelTagsKept();
    NameKeyApart(topLevel);
    ServiceKeysApart();
    ControlPlaneKept();
    DisplayNameDropped();
    var asked, labels := Expressed(sel, topLevel, Some(key)), LabelsOf(p, topLevel);
    assert key in asked;
    if ServiceAsked(sel, key, "", topLevel, labels) {
      forall k | k in asked ensures KeyMatches(k, asked[k], p.tags) {}
    }
    if MatchesExpressed(sel, topLevel, Some(key), p) {
      assert KeyMatches(key, sel[key], p.tags);
      forall k | k in sel && Expressible(sel, topLevel, Some(key), k) ensures KeyMatches(k, sel[k], p.tags) {
        assert k in asked;
      }
    }
  }

  lemma TagsAreMatched(sel: Tags, p: Proxy)
    requires !AsksService(sel) && Mirrored(sel, p.tags, p.labels, APP)
    ensures TagsAsked(sel, p.labels) <==> MatchesExpressed(sel, true, None, p)
  {
    hide Dropped, ServiceTag.Parse, ControlPlaneKey;
    LabelTagsKept();
    ServiceKeysApart();
    ControlPlaneKept();
    var asked := Expressed(sel, true, None);
    if TagsAsked(sel, p.labels) {
      forall k | k in asked ensures KeyMatches(k, asked[k], p.tags) {}
    }
    if MatchesExpressed(sel, true, None, p) {
      forall k | k in sel && Expressible(sel, true, None, k) ensures KeyMatches(k, sel[k], p.tags) {
        assert k in asked;
      }
    }
  }

  lemma ControlPlaneKept()
    ensures forall k :: ControlPlaneKey(k) ==> LabelTag(k) && k != APP && k != DISPLAY_NAME
  {
    assert forall k :: ControlPlaneKey(k) ==> SelectorLabelKey(k);
    assert |MESH| == 12 && |ENV| == 11 && |ORIGIN| == 14 && |SERVICE| == 15 && |SERVICE_NAME| == 24 && |ZONE| == 12;
    assert |DISPLAY_NAME| == 20 && |NAMESPACE| == 21 && MESH[8] == 'm' && ZONE[8] == 'z';
  }

  /** A selector becomes the whole mesh only if it is empty or a service key is '*'. */
  lemma MeshOnlyForEveryone(sel: Tags, topLevel: bool, v3: bool, nameLast: bool)
    ensures var r := ConvertSelector(sel, "", topLevel, v3, nameLast);
      r.Ok? && r.value.0.kind == "Mesh" <==>
        || sel == map[] || Has(sel, SERVICE, "*")
        || (Has(sel, SERVICE_NAME, "*") && (if SERVICE in sel then nameLast else v3))
  {
    hide Dropped, ServiceTag.Parse, Labels;
  }

  /** A selector has no equivalent exactly on 3.0 without a service key: outside the top level always, there when none
      of its tags can be a label. */
  lemma SelectorFails(sel: Tags, topLevel: bool, v3: bool, nameLast: bool)
    ensures ConvertSelector(sel, "", topLevel, v3, nameLast).Err? <==>
              v3 && sel != map[] && !AsksService(sel) && !(topLevel && AsksSomething(sel))
  {
    hide Dropped, ServiceTag.Parse, ConvertRefFor, AsksSomething;
    ConversionFails(Bare("MeshSubset").(tags := sel), "", topLevel, v3, nameLast);
  }

  /** No tag of a selector is lost without a word, except next to a '*'. */
  lemma SelectorLossWarned(sel: Tags, topLevel: bool, v3: bool, nameLast: bool, k: string, value: string)
    requires ConvertSelector(sel, "", topLevel, v3, nameLast).Ok?
    requires NeedsLabels(sel, v3) && (DecidingKey(sel, nameLast).Some? ==> sel[DecidingKey(sel, nameLast).value] != "*")
    ensures Warned(ConvertSelector(sel, "", topLevel, v3, nameLast).value.1, k, value) <==>
              Has(sel, k, value) && !ServiceKey(k) && Dropped(k)
  {
    hide Dropped, ServiceTag.Parse, ConvertRefFor, AsksSomething, Warned;
    var ref := Bare("MeshSubset").(tags := sel);
    LabelTagsKept();
    LossIsWarned(ref, "", topLevel, v3, nameLast);
    ConversionFails(ref, "", topLevel, v3, nameLast);
    if DecidingKey(sel, nameLast).Some? {
      ServiceSubset(ref, "", topLevel, v3, nameLast);
    } else {
      TagSubset(ref, "", v3, nameLast);
    }
  }

  // ---- what coverage needs ---------------------------------------------------

  /** Nothing less would do: of the proxies that match a lossless selector, the ref selects those that carry the
      labels. */
  lemma CoveredOnlyIfCarried(sel: Tags, topLevel: bool, v3: bool, r: Converted, p: Proxy)
    requires SelectorConverts(sel, "", topLevel, v3, r) && r.Ok?
    requires NeedsLabels(sel, v3) && Lossless(sel, topLevel) && TagsMatch(sel, p.tags)
    ensures Selects(r.value.0, p) <==> Carries(sel, p, topLevel)
  {
    hide ConvertSelector, Selects, Carries, TagsMatch, NeedsLabels, Lossless;
    if Carries(sel, p, topLevel) { SelectorCovers(sel, topLevel, v3, r, p); }
    if Selects(r.value.0, p) {
      if r == ConvertSelector(sel, "", topLevel, v3, false) {
        SelectedCarries(sel, topLevel, v3, false, p);
      } else {
        SelectedCarries(sel, topLevel, v3, true, p);
      }
    }
  }

  lemma SelectedCarries(sel: Tags, topLevel: bool, v3: bool, nameLast: bool, p: Proxy)
    requires NeedsLabels(sel, v3) && Lossless(sel, topLevel) && TagsMatch(sel, p.tags)
    requires var r := ConvertSelector(sel, "", topLevel, v3, nameLast); r.Ok? && Selects(r.value.0, p)
    ensures Carries(sel, p, topLevel)
  {
    hide Dropped, ServiceTag.Parse, ServiceRef, Resolve, Carries, Labels, Kept, DroppedOf, OtherTags, ControlPlaneKey;
    var key := DecidingKey(sel, nameLast);
    if key.Some? {
      var id := Resolve(key.value, sel[key.value], TagOr(sel, NAMESPACE), "");
      LosslessNames(sel, key.value, topLevel);
      ServiceRefMeans(id, TagOr(sel, ZONE), OtherTags(sel), "", topLevel, v3, p);
      LabelsCarried(sel, key.value, topLevel, p);
    } else {
      SomeLabel(sel);
      assert LabelsMatch(sel, p.labels);
      TagLabelsCarried(sel, p);
    }
  }

  lemma LosslessNames(sel: Tags, key: string, topLevel: bool)
    requires Lossless(sel, topLevel) && ServiceKey(key) && key in sel && sel[key] != "*"
    ensures Resolve(key, sel[key], TagOr(sel, NAMESPACE), "").name != ""
  {
    hide Dropped, ServiceTag.Parse, ControlPlaneKey;
  }

  lemma TagLabelsCarried(sel: Tags, p: Proxy)
    requires LabelsMatch(sel, p.labels) && TagsMatch(sel, p.tags) && !AsksService(sel)
    ensures Carries(sel, p, true)
  {
    hide Dropped;
    forall k | k in sel ensures Has(p.labels, k, sel[k]) && Has(p.tags, k, sel[k]) {}
  }

  lemma LabelsCarried(sel: Tags, key: string, topLevel: bool, p: Proxy)
    requires Lossless(sel, topLevel) && TagsMatch(sel, p.tags) && ServiceKey(key) && key in sel && sel[key] != "*"
    requires LabelsMatch(Labels(Resolve(key, sel[key], TagOr(sel, NAMESPACE), ""), TagOr(sel, ZONE), OtherTags(sel),
                                topLevel), LabelsOf(p, topLevel))
    ensures Carries(sel, p, topLevel)
  {
    hide Dropped, ServiceTag.Parse, Labels, ControlPlaneKey;
    var id, labels := Resolve(key, sel[key], TagOr(sel, NAMESPACE), ""), LabelsOf(p, topLevel);
    LosslessNames(sel, key, topLevel);
    LabelsMean(id, TagOr(sel, ZONE), OtherTags(sel), topLevel, labels);
    ServiceKeyDropped();
    ServiceNameKeyDropped();
    forall k | k in sel && !Dropped(k) ensures Has(labels, k, sel[k]) && Has(p.tags, k, sel[k]) {
      assert k in OtherTags(sel) || k == ZONE || k == NAMESPACE;
    }
  }

  // ---- nothing less is lossless --------------------------------------------------

  /** A selector that names a service, by one key or by both. */
  predicate NamesService(sel: Tags) {
    && AsksService(sel)
    && (SERVICE in sel ==> sel[SERVICE] != "*" && ServiceTag.Parse(sel[SERVICE]).name != "")
    && (SERVICE_NAME in sel ==> sel[SERVICE_NAME] != "*" && sel[SERVICE_NAME] != "")
    && '_' !in TagOr(sel, NAMESPACE)
  }

  /** The service it asks for when the name key, if there is one, decides. */
  function Named(sel: Tags): ServiceTag.Identity
    requires AsksService(sel)
  {
    var key := DecidingKey(sel, true).value;
    Resolve(key, sel[key], TagOr(sel, NAMESPACE), "")
  }

  /** A mirrored proxy with just the labels that the converted ref asks for. */
  function Witness(sel: Tags, id: ServiceTag.Identity, topLevel: bool): Proxy {
    // Without a namespace to match, one that the service tag does not encode.
    var namespace := if id.namespace != "" then id.namespace else OtherNamespace(sel);
    var asked := map k | k in OtherTags(sel) && !Dropped(k) && k != NameKey(topLevel) :: sel[k];
    var both := Put(asked, ZONE, TagOr(sel, ZONE))[NAMESPACE := namespace];
    var labels := both[NameKey(topLevel) := id.name];
    var tags := map k | k in (if topLevel then labels else both) && !ControlPlaneKey(k) :: labels[k];
    Proxy(tags[SERVICE := ServiceTag.Encode(id.name, namespace, "80")], labels, labels)
  }

  function OtherNamespace(sel: Tags): string {
    "x" + ServiceTag.Parse(TagOr(sel, SERVICE)).namespace
  }

  ghost predicate ExactBy(sel: Tags, topLevel: bool, v3: bool, nameLast: bool, p: Proxy) {
    var r := ConvertSelector(sel, "", topLevel, v3, nameLast);
    r.Ok? && (Selects(r.value.0, p) <==> MatchByService(sel, p.tags))
  }

  /** A selector that names a service is exact on every mirrored proxy, for every tag order, if and only if it is
      lossless. */
  lemma ExactOnlyIfLossless(sel: Tags, topLevel: bool, v3: bool)
    requires NamesService(sel) && (v3 || SERVICE in sel)
    ensures (forall nameLast: bool, p: Proxy :: Mirrored(sel, p.tags, LabelsOf(p, topLevel), NameKey(topLevel)) ==>
                                         ExactBy(sel, topLevel, v3, nameLast, p))
       <==> Lossless(sel, topLevel)
  {
    hide Mirrored, Dropped, ServiceTag.Parse, ServiceRef, Lossless, MatchByService, OtherTags;
    var w := Witness(sel, Named(sel), topLevel);
    NamedParts(sel);
    ServiceRefMeans(Named(sel), TagOr(sel, ZONE), OtherTags(sel), "", topLevel, v3, w);
    WitnessMirrored(sel, topLevel);
    WitnessSelected(sel, topLevel);
    assert ExactBy(sel, topLevel, v3, true, w) ==> MatchByService(sel, w.tags);
    if MatchByService(sel, w.tags) { WitnessLossless(sel, topLevel); }
    if Lossless(sel, topLevel) {
      forall nameLast: bool, p: Proxy | Mirrored(sel, p.tags, LabelsOf(p, topLevel), NameKey(topLevel))
        ensures ExactBy(sel, topLevel, v3, nameLast, p)
      {
        NamesConvert(sel, topLevel, v3, nameLast);
        SelectorExactBy(sel, topLevel, v3, nameLast, p);
      }
    }
  }

  lemma NamesConvert(sel: Tags, topLevel: bool, v3: bool, nameLast: bool)
    requires NamesService(sel) && (v3 || SERVICE in sel)
    ensures ConvertSelector(sel, "", topLevel, v3, nameLast).Ok?
  {
    hide ServiceTag.Parse;
  }

  lemma NamedParts(sel: Tags)
    requires NamesService(sel)
    ensures Named(sel).name == (if SERVICE_NAME in sel then sel[SERVICE_NAME] else ServiceTag.Parse(sel[SERVICE]).name)
    ensures Named(sel).name != "" && '_' !in Named(sel).namespace
    ensures '_' !in OtherNamespace(sel) && OtherNamespace(sel) != ""
    ensures SERVICE_NAME !in sel && ServiceTag.Encoded(sel[SERVICE]) ==>
              Named(sel).namespace == ServiceTag.Parse(sel[SERVICE]).namespace
    ensures SERVICE_NAME in sel || !ServiceTag.Encoded(sel[SERVICE]) ==> Named(sel).namespace == TagOr(sel, NAMESPACE)
  {
    hide ServiceTag.Parse;
    assert ServiceTag.Parse(TagOr(sel, SERVICE)).namespace != "" ==>
        '_' !in ServiceTag.Parse(TagOr(sel, SERVICE)).namespace;
  }

  lemma WitnessMirrored(sel: Tags, topLevel: bool)
    requires NamesService(sel)
    ensures var p := Witness(sel, Named(sel), topLevel);
      Mirrored(sel, p.tags, LabelsOf(p, topLevel), NameKey(topLevel))
  {
    hide Dropped, ServiceTag.Parse, ServiceTag.Encode, Named, OtherNamespace, ControlPlaneKey;
    WitnessService(sel, topLevel);
    WitnessKeys(topLevel);
    NamedParts(sel);
  }

  /** The service of the witness: a namespace that none was asked for is not the one the tag encodes. */
  lemma WitnessService(sel: Tags, topLevel: bool)
    requires NamesService(sel)
    ensures var p := Witness(sel, Named(sel), topLevel);
      && SERVICE in p.tags && NAMESPACE in p.tags && p.tags[NAMESPACE] != "" && SERVICE_NAME !in p.tags
      && ServiceTag.Parse(p.tags[SERVICE]) == ServiceTag.Identity(Named(sel).name, p.tags[NAMESPACE])
      && p.tags[NAMESPACE] ==
           (if Named(sel).namespace != "" then Named(sel).namespace else OtherNamespace(sel))
  {
    hide Dropped, ServiceTag.Parse, ServiceTag.Encode, Named, OtherNamespace;
    NamedParts(sel);
    ServiceTag.ParseInvertsEncode(Named(sel).name,
      if Named(sel).namespace != "" then Named(sel).namespace else OtherNamespace(sel), "80");
    WitnessKeys(topLevel);
  }

  lemma WitnessKeys(topLevel: bool)
    ensures Dropped(SERVICE) && Dropped(SERVICE_NAME) && Dropped(DISPLAY_NAME)
    ensures !Dropped(NAMESPACE) && !Dropped(ZONE) && !Dropped(APP)
    ensures !ControlPlaneKey(NAMESPACE) && !ControlPlaneKey(APP) && !ControlPlaneKey(ZONE)
    ensures NameKey(topLevel) !in {SERVICE, SERVICE_NAME, NAMESPACE, ZONE} &&
              SERVICE !in {NAMESPACE, ZONE, SERVICE_NAME}
    ensures SERVICE_NAME !in {NAMESPACE, ZONE} && NAMESPACE != ZONE
  {
    hide Dropped;
    ServiceKeyDropped();
    ServiceNameKeyDropped();
    DisplayNameDropped();
    ServiceKeysApart();
    LabelTagsKept();
    AppKept();
    KeysDiffer();
    ServiceKeysApart();
    NameKeyApart(topLevel);
    assert APP[0] == 'a' && SERVICE[0] == 'k' && SERVICE_NAME[0] == 'k' && |DISPLAY_NAME| == 20 && |SERVICE| == 15;
    assert |SERVICE_NAME| == 24 && |ZONE| == 12;
  }

  lemma AppKept()
    ensures !Dropped(APP)
  {
    assert '/' !in APP;
  }

  lemma WitnessSelected(sel: Tags, topLevel: bool)
    requires NamesService(sel)
    ensures LabelsMatch(Labels(Named(sel), TagOr(sel, ZONE), OtherTags(sel), topLevel),
                        LabelsOf(Witness(sel, Named(sel), topLevel), topLevel))
  {
    hide Dropped, ServiceTag.Parse, ServiceTag.Encode, Named, OtherNamespace, Labels, ControlPlaneKey;
    NamedParts(sel);
    WitnessKeys(topLevel);
    LabelsMean(Named(sel), TagOr(sel, ZONE), OtherTags(sel), topLevel,
      LabelsOf(Witness(sel, Named(sel), topLevel), topLevel));
  }

  /** What the selector asks beyond that is what it loses. */
  lemma WitnessLossless(sel: Tags, topLevel: bool)
    requires NamesService(sel) && MatchByService(sel, Witness(sel, Named(sel), topLevel).tags)
    ensures Lossless(sel, topLevel)
  {
    hide Dropped, ServiceTag.Parse, ServiceTag.Encode, Named, Witness, ControlPlaneKey, OtherNamespace;
    var tags := Witness(sel, Named(sel), topLevel).tags;
    WitnessServiceLossless(sel, topLevel);
    forall k | k in sel && !ServiceKey(k)
      ensures !Dropped(k) && !ControlPlaneKey(k) && (k == NAMESPACE || k == ZONE ==> sel[k] != "")
      ensures k == NameKey(topLevel) ==> sel[k] == ServiceName(sel)
    {
      assert KeyMatches(k, sel[k], tags);
      WitnessHas(sel, topLevel, k, sel[k]);
    }
    WitnessKeys(topLevel);
  }

  lemma WitnessServiceLossless(sel: Tags, topLevel: bool)
    requires NamesService(sel) && MatchByService(sel, Witness(sel, Named(sel), topLevel).tags)
    ensures ServiceName(sel) == Named(sel).name
    ensures SERVICE in sel ==>
              var id := ServiceTag.Parse(sel[SERVICE]);
              && (SERVICE_NAME in sel ==> sel[SERVICE_NAME] == id.name)
              && (id.namespace != "" && NAMESPACE in sel ==> sel[NAMESPACE] == id.namespace)
              && (id.namespace != "" && SERVICE_NAME in sel ==> NAMESPACE in sel)
  {
    hide Dropped, ServiceTag.Parse, ServiceTag.Encode, Named, Witness, ControlPlaneKey;
    NamedParts(sel);
    WitnessService(sel, topLevel);
    WitnessKeys(topLevel);
    var tags := Witness(sel, Named(sel), topLevel).tags;
    assert SERVICE in sel ==> KeyMatches(SERVICE, sel[SERVICE], tags);
    assert SERVICE_NAME in sel ==> KeyMatches(SERVICE_NAME, sel[SERVICE_NAME], tags);
    assert NAMESPACE in sel ==> KeyMatches(NAMESPACE, sel[NAMESPACE], tags);
    assert |OtherNamespace(sel)| == 1 + |ServiceTag.Parse(TagOr(sel, SERVICE)).namespace|;
  }

  /** The tags of the witness: what was kept, the zone and namespace asked for, and the service's name. */
  lemma WitnessHas(sel: Tags, topLevel: bool, k: string, value: string)
    requires NamesService(sel) && k in sel && !ServiceKey(k)
    requires Has(Witness(sel, Named(sel), topLevel).tags, k, value)
    ensures !Dropped(k) && !ControlPlaneKey(k) && (k == ZONE ==> sel[k] != "") && (k == NAMESPACE ==> value != "")
    ensures k == NameKey(topLevel) ==> value == Named(sel).name
  {
    hide Dropped, ServiceTag.Parse, ServiceTag.Encode, Named, ControlPlaneKey, OtherNamespace;
    WitnessService(sel, topLevel);
    WitnessKeys(topLevel);
  }

  // ---- both service keys -------------------------------------------------------

  /** With both service keys the tag that is visited last decides. Both orders give the same ref if and only if the
      tag decodes to the name, and a namespace it encodes is the one given. */
  lemma TagOrdersAgree(sel: Tags, topLevel: bool, v3: bool)
    requires SERVICE in sel && SERVICE_NAME in sel && sel[SERVICE] != "*" && sel[SERVICE_NAME] != "*"
    requires sel[SERVICE_NAME] != "" && ServiceTag.Parse(sel[SERVICE]).name != ""
    ensures ConvertSelector(sel, "", topLevel, v3, false) == ConvertSelector(sel, "", topLevel, v3, true) <==>
              var id := ServiceTag.Parse(sel[SERVICE]);
              sel[SERVICE_NAME] == id.name && (id.namespace == "" || id.namespace == TagOr(sel, NAMESPACE))
  {
    hide Dropped, ServiceTag.Parse, Labels;
    var one := Resolve(SERVICE, sel[SERVICE], TagOr(sel, NAMESPACE), "");
    var other := Resolve(SERVICE_NAME, sel[SERVICE_NAME], TagOr(sel, NAMESPACE), "");
    SameRefSameService(one, other, TagOr(sel, ZONE), OtherTags(sel), topLevel, v3);
  }

  lemma SameRefSameService(a: ServiceTag.Identity, b: ServiceTag.Identity, zone: string, extra: Tags, topLevel: bool,
                           v3: bool)
    requires a.name != "" && b.name != "" && NAMESPACE !in extra
    ensures ServiceRef(a, zone, extra, "", topLevel, v3) == ServiceRef(b, zone, extra, "", topLevel, v3) <==> a == b
  {
    hide Dropped;
    NameKeyApart(topLevel);
    assert TagOr(Labels(a, zone, extra, topLevel), NameKey(topLevel)) == a.name;
    assert TagOr(Labels(b, zone, extra, topLevel), NameKey(topLevel)) == b.name;
    assert TagOr(Labels(a, zone, extra, topLevel), NAMESPACE) == a.namespace;
    assert TagOr(Labels(b, zone, extra, topLevel), NAMESPACE) == b.namespace;
    assert TagOr(Labels(a, "", map[], topLevel), NameKey(topLevel)) == a.name;
    assert TagOr(Labels(b, "", map[], topLevel), NameKey(topLevel)) == b.name;
    assert TagOr(Labels(a, "", map[], topLevel), NAMESPACE) == a.namespace;
    assert TagOr(Labels(b, "", map[], topLevel), NAMESPACE) == b.namespace;
  }

  // ---- where a service has more than one tag ---------------------------------

  /** The proxy carries the selector's own service tag whenever it is of the selector's service. */
  predicate SameTag(sel: Tags, tags: Tags) {
    && (SERVICE in sel && sel[SERVICE] != "*" && KeyMatches(SERVICE, sel[SERVICE], tags) ==>
          Has(tags, SERVICE, sel[SERVICE]))
    && (SERVICE_NAME in sel && KeyMatches(SERVICE_NAME, sel[SERVICE_NAME], tags) ==>
          Has(tags, SERVICE_NAME, sel[SERVICE_NAME]))
  }

  /** The legacy selector matched exactly the proxies of its service that carry its own tag: what the converted ref adds
      are those with another port or, for a name without a namespace, another kind of tag. */
  lemma MatchedIsSameTag(sel: Tags, topLevel: bool, v3: bool, p: Proxy)
    requires ExactOn(sel, topLevel, v3, p)
    ensures TagsMatch(sel, p.tags) <==> Meant(sel, v3, p.tags) && (SameTag(sel, p.tags) || (!v3 && SERVICE !in sel))
  {
    hide Dropped, ServiceTag.Parse, ControlPlaneKey;
    if TagsMatch(sel, p.tags) {
      assert SERVICE in sel && sel[SERVICE] != "*" ==> Has(p.tags, SERVICE, sel[SERVICE]);
      assert SERVICE_NAME in sel ==> Has(p.tags, SERVICE_NAME, sel[SERVICE_NAME]);
    }
  }

  /** Two ports of one service: the ref of one selects the proxy of the other. */
  lemma PortIsLost(name: string, namespace: string, asked: string, given: string)
    requires '_' !in namespace && '_' !in asked && '_' !in given && asked != given
    ensures var sel := map[SERVICE := ServiceTag.Encode(name, namespace, asked)];
      var tags := map[SERVICE := ServiceTag.Encode(name, namespace, given)];
      MatchByService(sel, tags) && !TagsMatch(sel, tags)
  {
    ServiceTag.ParseInvertsEncode(name, namespace, asked);
    ServiceTag.ParseInvertsEncode(name, namespace, given);
    var front := name + "_" + namespace + ServiceTag.SVC;
    var sel := map[SERVICE := ServiceTag.Encode(name, namespace, asked)];
    assert sel[SERVICE][|front|..] == asked && ServiceTag.Encode(name, namespace, given)[|front|..] == given;
    assert sel[SERVICE] != "*" by { EncodedIsNoStar(name, namespace, asked); }
    assert SERVICE in sel;
  }

  /** A free-form name: its ref also selects the Kubernetes service of that name. */
  lemma FreeFormNameIsShared(name: string, namespace: string, numeral: string)
    requires ServiceTag.Parse(name) == ServiceTag.Identity(name, "") && name != ""
    requires '_' !in namespace && '_' !in numeral
    ensures var sel, tags := map[SERVICE := name], map[SERVICE := ServiceTag.Encode(name, namespace, numeral)];
      MatchByService(sel, tags) && !TagsMatch(sel, tags)
  {
    ServiceTag.ParseInvertsEncode(name, namespace, numeral);
    assert |ServiceTag.Encode(name, namespace, numeral)| > |name|;
    var sel := map[SERVICE := name];
    assert SERVICE in sel && sel[SERVICE] == name;
  }

  /** Where it widens: '*' stands for the whole mesh and discards the tags next to it. It selects exactly the proxies
      that matched if and only if there are none. */
  lemma StarExact(sel: Tags, topLevel: bool, v3: bool, nameLast: bool)
    requires Has(sel, SERVICE, "*")
    ensures ConvertSelector(sel, "", topLevel, v3, nameLast) == Ok((Bare("Mesh"), []))
    ensures (forall p :: Selects(Bare("Mesh"), p) <==> TagsMatch(sel, p.tags)) <==> sel == map[SERVICE := "*"]
  {
    if forall p :: Selects(Bare("Mesh"), p) <==> TagsMatch(sel, p.tags) {
      var nobody := Proxy(map[], map[], map[]);
      assert Selects(Bare("Mesh"), nobody);
      forall k | k in sel ensures k == SERVICE { assert !Has(nobody.tags, k, sel[k]); }
      assert sel == map[SERVICE := "*"];
    }
  }

  /** The from[] of a 2.x inbound policy keeps them: a selector it converts differently. */
  lemma StarDiscardsExtraTags(p: Proxy)
    requires !Has(p.tags, "version", "v1")
    ensures var sel := map[SERVICE := "*", "version" := "v1"];
            && ConvertSelector(sel, "", true, false, true) == Ok((Bare("Mesh"), []))
            && Selects(Bare("Mesh"), p) && !TagsMatch(sel, p.tags) && !Selects(FromSubset(sel), p)
  {
    var sel := map[SERVICE := "*", "version" := "v1"];
    assert "version" in sel && sel["version"] == "v1";
    FromSubsetExact(sel, p);
  }

  lemma KeysDiffer()
    ensures SERVICE != SERVICE_NAME && SERVICE != NAMESPACE && SERVICE_NAME != NAMESPACE
    ensures NAMESPACE != APP && NAMESPACE != DISPLAY_NAME
  {
    assert SERVICE[1] == 'u' && SERVICE_NAME[1] == '8' && NAMESPACE[1] == '8' && |APP| == 3 && DISPLAY_NAME[1] == 'u';
    assert |SERVICE_NAME| == 24 && |NAMESPACE| == 21;
  }

  lemma EncodedIsNoStar(name: string, namespace: string, numeral: string)
    ensures ServiceTag.Encode(name, namespace, numeral) != "*"
  {
  }

  /** The proxy of a Service on Kubernetes. Its inbound tags are the pod's labels and the service's tags; its
      Dataplane has the pod's labels, its MeshService those of the Service, and both what the control plane adds. */
  function ServiceProxy(name: string, namespace: string, numeral: string, pod: Tags, service: Tags,
                        added: Tags): Proxy
  {
    Proxy(pod + map[SERVICE := ServiceTag.Encode(name, namespace, numeral), SERVICE_NAME := name,
                    NAMESPACE := namespace],
          pod + added + map[NAMESPACE := namespace],
          service + added + map[DISPLAY_NAME := name, NAMESPACE := namespace])
  }

  /** What the two labels maps must have in common with the pod: its app label is the name of the service asked for
      (top level), or the Service repeats the pod's labels the selector asks about. */
  predicate LabelledAlike(sel: Tags, name: string, pod: Tags, service: Tags, topLevel: bool) {
    if topLevel then AsksService(sel) ==> Has(pod, APP, name)
    else forall k :: k in sel && k != NAMESPACE && !Dropped(k) ==>
        (k in pod <==> k in service) && (k in pod ==> pod[k] == service[k])
  }

  /** The assumptions of coverage and exactness hold of every such proxy, whatever further labels the pod, the Service
      and the control plane set, and of every selector. */
  lemma ServiceProxyCarries(name: string, namespace: string, numeral: string, pod: Tags, service: Tags, added: Tags,
                            sel: Tags, topLevel: bool)
    requires name != "" && namespace != "" && '_' !in namespace && '_' !in numeral
    requires forall k :: k in added ==> ControlPlaneKey(k) && k !in pod
    requires LabelledAlike(sel, name, pod, service, topLevel)
    ensures var p := ServiceProxy(name, namespace, numeral, pod, service, added);
      Carries(sel, p, topLevel) && Mirrored(sel, p.tags, LabelsOf(p, topLevel), NameKey(topLevel))
  {
    hide Dropped, ServiceTag.Parse, ServiceTag.Encode, ControlPlaneKey, LabelledAlike;
    var p := ServiceProxy(name, namespace, numeral, pod, service, added);
    ServiceTag.ParseInvertsEncode(name, namespace, numeral);
    LabelTagsKept();
    ServiceKeyDropped();
    ServiceNameKeyDropped();
    DisplayNameDropped();
    ServiceKeysApart();
    KeysDiffer();
    var labels := LabelsOf(p, topLevel);
    NamesItsService(name, namespace, numeral, pod, service, added, sel, topLevel);
    forall k | k in sel && !Dropped(k)
      ensures k in p.tags ==> Has(labels, k, p.tags[k])
      ensures !ControlPlaneKey(k) && k in labels ==> Has(p.tags, k, labels[k])
    {
      OrdinaryKey(name, namespace, numeral, pod, service, added, sel, topLevel, k);
    }
  }

  /** The two ports again, on the converted ref and a real proxy: it is selected, and was not matched. */
  lemma OtherPortIsSelected(name: string, namespace: string, asked: string, given: string, topLevel: bool, v3: bool)
    requires name != "" && namespace != "" && '_' !in namespace && '_' !in asked && '_' !in given && asked != given
    ensures var sel := map[SERVICE := ServiceTag.Encode(name, namespace, asked)];
      var p := ServiceProxy(name, namespace, given, map[APP := name], map[], map[]);
      var r := ConvertSelector(sel, "", topLevel, v3, false);
      r.Ok? && Selects(r.value.0, p) && !TagsMatch(sel, p.tags)
  {
    hide ServiceTag.Encode, ServiceTag.Parse, Dropped, Selects, Mirrored, ServiceRef, MatchByService, Resolve, Carries;
    var sel := map[SERVICE := ServiceTag.Encode(name, namespace, asked)];
    var p := ServiceProxy(name, namespace, given, map[APP := name], map[], map[]);
    ServiceKeyDropped();
    KeysDiffer();
    EncodedIsNoStar(name, namespace, asked);
    ServiceTag.ParseInvertsEncode(name, namespace, asked);
    ServiceProxyCarries(name, namespace, given, map[APP := name], map[], map[], sel, topLevel);
    PortIsLost(name, namespace, asked, given);
    OtherTagsIgnored(sel, p.tags, map[SERVICE := ServiceTag.Encode(name, namespace, given)]);
    assert Lossless(sel, topLevel);
    ExactOnlyIfLossless(sel, topLevel, v3);
    assert ExactBy(sel, topLevel, v3, false, p);
  }

  lemma OtherTagsIgnored(sel: Tags, tags: Tags, service: Tags)
    requires sel.Keys == {SERVICE} && SERVICE in tags && SERVICE in service && tags[SERVICE] == service[SERVICE]
    ensures MatchByService(sel, tags) == MatchByService(sel, service) && TagsMatch(sel, tags) == TagsMatch(sel, service)
  {
    hide ServiceTag.Parse;
  }

  lemma NamesItsService(name: string, namespace: string, numeral: string, pod: Tags, service: Tags, added: Tags,
                        sel: Tags, topLevel: bool)
    requires LabelledAlike(sel, name, pod, service, topLevel) && forall l :: l in added ==>
              ControlPlaneKey(l) && l !in pod
    ensures var labels := LabelsOf(ServiceProxy(name, namespace, numeral, pod, service, added), topLevel);
      Has(labels, NAMESPACE, namespace) && (!topLevel || AsksService(sel) ==> Has(labels, NameKey(topLevel), name))
  {
    hide ServiceTag.Encode, Dropped, ControlPlaneKey;
    DisplayNameDropped();
    ServiceKeysApart();
    KeysDiffer();
  }

  /** A label-worthy key other than the namespace is a tag or label only because the pod or the Service has it. */
  lemma OrdinaryKey(name: string, namespace: string, numeral: string, pod: Tags, service: Tags, added: Tags,
                    sel: Tags, topLevel: bool, k: string)
    requires k in sel && !Dropped(k) && (forall l :: l in added ==> ControlPlaneKey(l) && l !in pod)
    requires LabelledAlike(sel, name, pod, service, topLevel)
    ensures var p := ServiceProxy(name, namespace, numeral, pod, service, added);
      && (k in p.tags ==> Has(LabelsOf(p, topLevel), k, p.tags[k]))
      && (k in LabelsOf(p, topLevel) && !ControlPlaneKey(k) ==> Has(p.tags, k, LabelsOf(p, topLevel)[k]))
  {
    hide Dropped, ControlPlaneKey, ServiceTag.Encode;
    ServiceKeyDropped();
    ServiceNameKeyDropped();
    DisplayNameDropped();
    ServiceKeysApart();
    KeysDiffer();
  }

  /** The proxy of a Universal service: a free-form service tag, and labels that name the service and repeat the other
      inbound tags. */
  function UniversalProxy(name: string, inbound: Tags, added: Tags): Proxy {
    Proxy(inbound[SERVICE := name], inbound + added + map[APP := name], inbound + added + map[DISPLAY_NAME := name])
  }

  /** The assumptions hold of every such proxy too. At the top level an app tag must name the service. */
  lemma UniversalProxyCarries(name: string, inbound: Tags, added: Tags, sel: Tags, topLevel: bool)
    requires name != "" && ServiceTag.Parse(name) == ServiceTag.Identity(name, "")
    requires NAMESPACE !in inbound && SERVICE_NAME !in inbound && forall k :: k in added ==>
              ControlPlaneKey(k) && k !in inbound
    requires topLevel && APP in sel ==> Has(inbound, APP, name)
    ensures var p := UniversalProxy(name, inbound, added);
      Carries(sel, p, topLevel) && Mirrored(sel, p.tags, LabelsOf(p, topLevel), NameKey(topLevel))
  {
    hide Dropped, ServiceTag.Parse, ControlPlaneKey;
    ServiceKeyDropped();
    ServiceNameKeyDropped();
    DisplayNameDropped();
    ServiceKeysApart();
    KeysDiffer();
  }
}
