/** Inbound and gateway tags become Dataplane labels (v3_dataplane.go), and MeshService tag selectors become
    label selectors (v3_scan.go). Tag and label values are compared as they print. */
module DataplaneTags {
  import opened Text
  import opened TagKeys
  import Sorting

  predicate HasPrefix(s: string, prefix: string) {
    prefix <= s
  }

  /** isReservedLabelPrefix. */
  predicate Reserved(k: string) {
    HasPrefix(k, "kuma.io/") || HasPrefix(k, "k8s.kuma.io/")
  }

  // ---- merging ---------------------------------------------------------------

  function Merge(labels: Tags, tags: Tags): Tags {
    (map k | k in tags && !Reserved(k) :: tags[k]) + labels
  }

  predicate Conflict(labels: Tags, tags: Tags) {
    exists k :: k in tags && !Reserved(k) && k in labels && labels[k] != tags[k]
  }

  function Only(tags: Tags, done: set<string>): Tags {
    map k | k in tags && k in done :: tags[k]
  }

  /** Merging one more tag. */
  lemma MergeOne(labels: Tags, tags: Tags, done: set<string>, k: string)
    requires k in tags && k !in done
    ensures var before := Merge(labels, Only(tags, done));
      && (k in before <==> k in labels) && (k in before ==> before[k] == labels[k])
      && Merge(labels, Only(tags, done + {k})) == (if Reserved(k) || k in labels then before else before[k := tags[k]])
  {
    hide Reserved;
  }

  /** The keys that belong to s, in order. */
  function Among(keys: seq<string>, s: set<string>): seq<string> {
    if keys == [] then []
    else
      var rest, last := Among(keys[..|keys| - 1], s), keys[|keys| - 1];
      if last in s then rest + [last] else rest
  }

  lemma NoneAmong(keys: seq<string>)
    ensures forall s :: Among(keys[..0], s) == []
  {
  }

  lemma AmongOneMore(keys: seq<string>, i: nat, s: set<string>)
    requires i < |keys|
    ensures Among(keys[..i + 1], s) == Among(keys[..i], s) + (if keys[i] in s then [keys[i]] else [])
  {
    assert keys[..i + 1][..i] == keys[..i];
  }

  lemma {:induction false} AmongElems(keys: seq<string>, s: set<string>)
    requires StrictlySorted(keys)
    ensures StrictlySorted(Among(keys, s)) && Elems(Among(keys, s)) == Elems(keys) * s
  {
    if keys != [] {
      var n := |keys| - 1;
      AmongElems(keys[..n], s);
      var rest := Among(keys[..n], s);
      SortedHasNoRepeat(keys, n);
      assert keys[..n + 1] == keys;
      forall i | 0 <= i < |rest| ensures Less(rest[i], keys[n]) {
        assert rest[i] in Elems(rest);
        var j :| 0 <= j < n && keys[..n][j] == rest[i];
      }
      Sorting.ElemsAppend(rest, keys[n]);
    }
  }

  function ReservedKeys(tags: Tags): set<string> {
    set k | k in tags && Reserved(k)
  }

  function MovedKeys(labels: Tags, tags: Tags): set<string> {
    set k | k in tags && !Reserved(k) && k !in labels
  }

  function ConflictKeys(labels: Tags, tags: Tags): set<string> {
    set k | k in tags && !Reserved(k) && k in labels && labels[k] != tags[k]
  }

  /** labelMerge: the tags copied, those under a reserved prefix, those that disagree with a label. */
  datatype LabelMerge = LabelMerge(moved: seq<string>, reserved: seq<string>, conflicts: seq<string>)

  ghost predicate Lists(list: seq<string>, keys: set<string>) {
    StrictlySorted(list) && Elems(list) == keys
  }

  /** mergeTagsIntoLabels, tag by tag in sorted order. */
  method MergeTagsIntoLabels(labels: Tags, tags: Tags) returns (out: Tags, res: LabelMerge)
    ensures out == Merge(labels, tags)
    ensures Lists(res.moved, MovedKeys(labels, tags)) && Lists(res.reserved, ReservedKeys(tags))
    ensures Lists(res.conflicts, ConflictKeys(labels, tags)) && (res.conflicts != [] <==> Conflict(labels, tags))
  {
    hide Reserved, Merge, Only, Among, Conflict;
    var keys := Sorting.SortedKeys(tags.Keys);
    out := labels;
    var moved, reserved, conflicts := [], [], [];
    NothingMerged(labels, tags);
    NoneAmong(keys);
    for i := 0 to |keys|
      invariant out == Merge(labels, Only(tags, Elems(keys[..i])))
      invariant moved == Among(keys[..i], MovedKeys(labels, tags))
      invariant reserved == Among(keys[..i], ReservedKeys(tags))
      invariant conflicts == Among(keys[..i], ConflictKeys(labels, tags))
    {
      var k := keys[i];
      assert k in Elems(keys);
      AmongOneMore(keys, i, MovedKeys(labels, tags));
      AmongOneMore(keys, i, ReservedKeys(tags));
      AmongOneMore(keys, i, ConflictKeys(labels, tags));
      SortedHasNoRepeat(keys, i);
      MergeOne(labels, tags, Elems(keys[..i]), k);
      if Reserved(k) {
        reserved := reserved + [k];
        continue;
      }
      if k in out {
        if out[k] != tags[k] { conflicts := conflicts + [k]; }
        continue;
      }
      out := out[k := tags[k]];
      moved := moved + [k];
    }
    assert keys[..|keys|] == keys;
    AllMerged(tags);
    res := LabelMerge(moved, reserved, conflicts);
    AmongElems(keys, MovedKeys(labels, tags));
    AmongElems(keys, ReservedKeys(tags));
    AmongElems(keys, ConflictKeys(labels, tags));
    ConflictsListed(labels, tags, conflicts);
  }

  lemma ConflictsListed(labels: Tags, tags: Tags, conflicts: seq<string>)
    requires Elems(conflicts) == ConflictKeys(labels, tags)
    ensures conflicts != [] <==> Conflict(labels, tags)
  {
    hide Reserved;
    assert |conflicts| > 0 ==> conflicts[0] in Elems(conflicts);
    if k :| k in tags && !Reserved(k) && k in labels && labels[k] != tags[k] { assert k in ConflictKeys(labels, tags); }
  }

  lemma NothingMerged(labels: Tags, tags: Tags)
    ensures Merge(labels, Only(tags, Elems([]))) == labels
  {
    assert Only(tags, Elems([])) == map[];
  }

  lemma AllMerged(tags: Tags)
    ensures Only(tags, tags.Keys) == tags
  {
  }

  lemma SortedHasNoRepeat(keys: seq<string>, i: int)
    requires StrictlySorted(keys) && 0 <= i < |keys|
    ensures keys[i] !in Elems(keys[..i]) && Elems(keys[..i + 1]) == Elems(keys[..i]) + {keys[i]}
  {
    LessTrichotomy(keys[i], keys[i]);
    assert keys[..i + 1] == keys[..i] + [keys[i]];
    Sorting.ElemsAppend(keys[..i], keys[i]);
  }

  lemma MergeGrows(labels: Tags, tags: Tags)
    ensures Extends(labels, Merge(labels, tags))
    ensures !Conflict(labels, tags) <==> forall k :: k in tags && !Reserved(k) ==> Merge(labels, tags)[k] == tags[k]
    ensures forall k :: k in tags && !Reserved(k) ==> k in Merge(labels, tags)
    ensures Conflict(Merge(labels, tags), tags) == Conflict(labels, tags)
    ensures Merge(Merge(labels, tags), tags) == Merge(labels, tags)
  {
    hide Reserved;
    if Conflict(labels, tags) {
      var k :| k in tags && !Reserved(k) && k in labels && labels[k] != tags[k];
      assert Merge(labels, tags)[k] == labels[k];
    }
  }

  /** The three lists say what the merge did: the moved tags are the new labels, the conflicting ones those that
      disagree afterwards, and the reserved ones those under the prefixes of Kuma; the rest were labels already. */
  lemma MergeReports(labels: Tags, tags: Tags)
    ensures MovedKeys(labels, tags) == Merge(labels, tags).Keys - labels.Keys
    ensures ConflictKeys(labels, tags) ==
              set k | k in tags && k !in ReservedKeys(tags) && !Has(Merge(labels, tags), k, tags[k])
    ensures ReservedKeys(tags) == set k | k in tags && ("kuma.io/" <= k || "k8s.kuma.io/" <= k)
    ensures forall k :: k in tags && k !in MovedKeys(labels, tags) + ConflictKeys(labels, tags) + ReservedKeys(tags) ==>
              Has(labels, k, tags[k])
  {
    forall k: string ensures Reserved(k) <==> "kuma.io/" <= k || "k8s.kuma.io/" <= k {}
    hide Reserved;
  }

  // ---- inbounds --------------------------------------------------------------

  datatype Inbound = Inbound(port: int, protocol: string, tags: Option<Tags>)

  function TagsOf(i: Inbound): Tags {
    i.tags.Or(map[])
  }

  function WithProtocol(i: Inbound): Inbound {
    var tag := if PROTOCOL in TagsOf(i) then TagsOf(i)[PROTOCOL] else "";
    if i.protocol == "" then i.(protocol := tag) else i
  }

  function WithProtocols(ins: seq<Inbound>): seq<Inbound> {
    seq(|ins|, i requires 0 <= i < |ins| => WithProtocol(ins[i]))
  }

  /** The labels after the tags of all these inbounds were moved. */
  function Accumulated(labels: Tags, ins: seq<Inbound>): Tags {
    if ins == [] then labels
    else Merge(Accumulated(labels, ins[..|ins| - 1]), TagsOf(ins[|ins| - 1]))
  }

  /** An inbound keeps its tags only when one conflicts with the labels accumulated so far. */
  function Untagged(labels: Tags, i: Inbound): Inbound {
    if i.tags.Some? && !Conflict(labels, TagsOf(i)) then i.(tags := None) else i
  }

  function MoveTags(labels: Tags, ins: seq<Inbound>): seq<Inbound> {
    seq(|ins|, i requires 0 <= i < |ins| => Untagged(Accumulated(labels, ins[..i]), ins[i]))
  }

  function WithoutGatewayLabels(labels: Tags): Tags {
    labels - {GATEWAY, PROXY_TYPE}
  }

  datatype State = State(labels: Tags, inbounds: seq<Inbound>, gateway: Option<Tags>)

  function FixTags(s: State): State {
    s.(labels := Accumulated(s.labels, s.inbounds), inbounds := MoveTags(s.labels, s.inbounds))
  }

  function FixGateway(s: State): State {
    s.(labels := WithoutGatewayLabels(Merge(s.labels, s.gateway.Or(map[]))), gateway := None)
  }

  /** The steps of fixDataplane that touch inbounds, labels and the gateway, in their order. */
  function Fix(s: State): State {
    FixGateway(FixTags(s.(inbounds := WithProtocols(s.inbounds))))
  }

  class Dataplane {
    var labels: Tags
    var inbounds: seq<Inbound>
    var gateway: Option<Tags>

    ghost function Current(): State
      reads this
    {
      State(labels, inbounds, gateway)
    }

    /** fixDataplaneInboundProtocolForV3. */
    method FixInboundProtocol()
      modifies this`inbounds
      ensures inbounds == WithProtocols(old(inbounds))
    {
      var was := inbounds;
      for i := 0 to |was|
        invariant |inbounds| == |was| && forall j :: i <= j < |was| ==> inbounds[j] == was[j]
        invariant forall j :: 0 <= j < i ==> inbounds[j] == WithProtocol(was[j])
      {
        var in_ := inbounds[i];
        var tag := if PROTOCOL in TagsOf(in_) then TagsOf(in_)[PROTOCOL] else "";
        if tag == "" { continue; }
        if in_.protocol == "" { inbounds := inbounds[i := in_.(protocol := tag)]; }
      }
    }

    /** fixDataplaneInboundTagsForV3. */
    method FixInboundTags()
      modifies this`inbounds, this`labels
      ensures Current() == FixTags(old(Current()))
    {
      hide Conflict, Merge;
      var was, before := inbounds, labels;
      for i := 0 to |was|
        invariant gateway == old(gateway)
        invariant |inbounds| == |was| && forall j :: i <= j < |was| ==> inbounds[j] == was[j]
        invariant labels == Accumulated(before, was[..i])
        invariant forall j :: 0 <= j < i ==> inbounds[j] == Untagged(Accumulated(before, was[..j]), was[j])
      {
        assert was[..i + 1][..i] == was[..i];
        var in_ := inbounds[i];
        if in_.tags.None? || in_.tags.value == map[] {
          EmptyTags(labels);
          if in_.tags.Some? { inbounds := inbounds[i := in_.(tags := None)]; }
          continue;
        }
        var merged, res := MergeTagsIntoLabels(labels, in_.tags.value);
        labels := merged;
        if |res.conflicts| > 0 { continue; }
        inbounds := inbounds[i := in_.(tags := None)];
      }
      assert was[..|was|] == was;
      assert inbounds == MoveTags(before, was);
    }

    /** fixDataplaneGatewayForV3. */
    method FixGatewayMarking()
      modifies this`labels, this`gateway
      ensures Current() == FixGateway(old(Current()))
    {
      hide Conflict, Merge;
      if gateway.Some? {
        if gateway.value != map[] {
          var merged, _ := MergeTagsIntoLabels(labels, gateway.value);
          labels := merged;
        } else {
          EmptyTags(labels);
        }
        gateway := None;
      } else {
        EmptyTags(labels);
      }
      ghost var merged := labels;
      if GATEWAY in labels { labels := labels - {GATEWAY}; }
      if PROXY_TYPE in labels { labels := labels - {PROXY_TYPE}; }
      assert labels == WithoutGatewayLabels(merged);
    }

    /** fixDataplane, up to the steps that only rewrite outbounds and refs. */
    method FixDataplane()
      modifies this
      ensures Current() == Fix(old(Current()))
    {
      FixInboundProtocol();
      FixInboundTags();
      FixGatewayMarking();
    }
  }

  lemma EmptyTags(labels: Tags)
    ensures Merge(labels, map[]) == labels && !Conflict(labels, map[])
  {
  }

  // ---- what the move means -----------------------------------------------------

  lemma {:induction false} LabelsOnlyGrow(labels: Tags, ins: seq<Inbound>, n: nat)
    requires n <= |ins|
    ensures Extends(Accumulated(labels, ins[..n]), Accumulated(labels, ins))
    decreases |ins| - n
  {
    hide Reserved;
    if n < |ins| {
      LabelsOnlyGrow(labels, ins, n + 1);
      assert ins[..n + 1][..n] == ins[..n];
      MergeGrows(Accumulated(labels, ins[..n]), TagsOf(ins[n]));
    } else {
      assert ins[..n] == ins;
    }
  }

  lemma NotReserved(k: string)
    requires !Reserved(k)
    ensures k != GATEWAY && k != PROXY_TYPE
  {
  }

  /** The labels at the end carry whatever any step put there, gateway labels aside. */
  lemma FinalLabels(s: State, n: nat, k: string)
    requires n <= |s.inbounds| && !Reserved(k)
    ensures var acc := Accumulated(s.labels, s.inbounds[..n]);
            k in acc ==> k in FixGateway(FixTags(s)).labels && FixGateway(FixTags(s)).labels[k] == acc[k]
  {
    hide Reserved, Accumulated;
    LabelsOnlyGrow(s.labels, s.inbounds, n);
    NotReserved(k);
    MergeGrows(Accumulated(s.labels, s.inbounds), s.gateway.Or(map[]));
  }

  /** Agreement of an inbound's tags with labels: every tag that can be a label is one, with its value. */
  ghost predicate Agrees(tags: Tags, labels: Tags) {
    forall k :: k in tags && !Reserved(k) ==> k in labels && labels[k] == tags[k]
  }

  /** An inbound ends without tags exactly when every tag that can be a label is a final label of the same
      value; labels are never overwritten, and only the two gateway labels are ever removed. */
  lemma TagsMove(s: State, i: nat)
    requires i < |s.inbounds| && s.inbounds[i].tags.Some?
    ensures var out := FixGateway(FixTags(s));
      && |out.inbounds| == |s.inbounds|
      && (out.inbounds[i].tags.None? <==> Agrees(s.inbounds[i].tags.value, out.labels))
      && (out.inbounds[i].tags.Some? ==> out.inbounds[i] == s.inbounds[i])
      && forall k :: k in s.labels && !Reserved(k) ==> k in out.labels && out.labels[k] == s.labels[k]
  {
    hide Reserved, Accumulated;
    var acc, tags := Accumulated(s.labels, s.inbounds[..i]), s.inbounds[i].tags.value;
    var out := FixGateway(FixTags(s));
    var next := Accumulated(s.labels, s.inbounds[..i + 1]);
    assert next == Merge(acc, tags) by { AccumulatedStep(s.labels, s.inbounds, i); }
    MergeGrows(acc, tags);
    forall k | k in tags && !Reserved(k)
      ensures k in out.labels && out.labels[k] == next[k]
    {
      FinalLabels(s, i + 1, k);
    }
    forall k | k in s.labels && !Reserved(k) ensures k in out.labels && out.labels[k] == s.labels[k] {
      AccumulatedNone(s.labels, s.inbounds);
      FinalLabels(s, 0, k);
    }
  }

  lemma AccumulatedStep(labels: Tags, ins: seq<Inbound>, i: nat)
    requires i < |ins|
    ensures Accumulated(labels, ins[..i + 1]) == Merge(Accumulated(labels, ins[..i]), TagsOf(ins[i]))
  {
    assert ins[..i + 1][..i] == ins[..i];
  }

  lemma AccumulatedNone(labels: Tags, ins: seq<Inbound>)
    ensures Accumulated(labels, ins[..0]) == labels
  {
  }

  /** The first inbound that has the tag gives it this value. */
  ghost predicate FirstGives(ins: seq<Inbound>, k: string, v: string) {
    exists i :: 0 <= i < |ins| && Has(TagsOf(ins[i]), k, v) && forall j :: 0 <= j < i ==> k !in TagsOf(ins[j])
  }

  ghost predicate SomeTagged(ins: seq<Inbound>, k: string) {
    exists i :: 0 <= i < |ins| && k in TagsOf(ins[i])
  }

  lemma {:induction false} AccumulatedIs(labels: Tags, ins: seq<Inbound>, k: string)
    ensures k in Accumulated(labels, ins) <==> k in labels || (!Reserved(k) && SomeTagged(ins, k))
    ensures forall v :: Has(Accumulated(labels, ins), k, v) <==>
              Has(labels, k, v) || (k !in labels && !Reserved(k) && FirstGives(ins, k, v))
    decreases |ins|
  {
    hide Reserved;
    if ins != [] {
      var n := |ins| - 1;
      var init, before := ins[..n], Accumulated(labels, ins[..n]);
      AccumulatedIs(labels, init, k);
      assert SomeTagged(ins, k) <==> SomeTagged(init, k) || k in TagsOf(ins[n]) by {
        if SomeTagged(init, k) { var i :| 0 <= i < n && k in TagsOf(init[i]); assert ins[i] == init[i]; }
        if i :| 0 <= i < n && k in TagsOf(ins[i]) { assert init[i] == ins[i]; }
      }
      forall v
        ensures FirstGives(ins, k, v) <==>
                  FirstGives(init, k, v) || (!SomeTagged(init, k) && Has(TagsOf(ins[n]), k, v))
      {
        FirstOneMore(ins, k, v);
      }
    }
  }

  lemma FirstOneMore(ins: seq<Inbound>, k: string, v: string)
    requires ins != []
    ensures var n := |ins| - 1;
      FirstGives(ins, k, v) <==> FirstGives(ins[..n], k, v) || (!SomeTagged(ins[..n], k) && Has(TagsOf(ins[n]), k, v))
  {
    var n := |ins| - 1;
    var init := ins[..n];
    if FirstGives(init, k, v) {
      var i :| 0 <= i < n && Has(TagsOf(init[i]), k, v) && forall j :: 0 <= j < i ==> k !in TagsOf(init[j]);
      assert ins[i] == init[i] && forall j :: 0 <= j < i ==> ins[j] == init[j];
    }
    if FirstGives(ins, k, v) {
      var i :| 0 <= i < |ins| && Has(TagsOf(ins[i]), k, v) && forall j :: 0 <= j < i ==> k !in TagsOf(ins[j]);
      assert forall j :: 0 <= j < n ==> ins[j] == init[j];
      if i < n { assert Has(TagsOf(init[i]), k, v); }
    }
    if !SomeTagged(init, k) { assert forall j :: 0 <= j < n ==> init[j] == ins[j] && k !in TagsOf(init[j]); }
  }

  /** Exactly the labels a Dataplane ends with: those it had, then the tags of its inbounds in order and those of its
      gateway, of which the first to name a key gives the value and none under a reserved prefix is taken; without the
      two labels that marked a gateway. The gateway's tags are gone. */
  lemma FinalLabelsAre(s: State, k: string, v: string)
    ensures Has(Fix(s).labels, k, v) <==>
              && k != GATEWAY && k != PROXY_TYPE
              && (|| Has(s.labels, k, v)
                  || (k !in s.labels && !Reserved(k) &&
                      if SomeTagged(s.inbounds, k) then FirstGives(s.inbounds, k, v)
                      else Has(s.gateway.Or(map[]), k, v)))
    ensures Fix(s).gateway.None? && |Fix(s).inbounds| == |s.inbounds|
    ensures forall i :: 0 <= i < |s.inbounds| ==> Fix(s).inbounds[i].port == s.inbounds[i].port
  {
    hide Reserved, Accumulated;
    var ins := WithProtocols(s.inbounds);
    assert forall i :: 0 <= i < |ins| ==> TagsOf(ins[i]) == TagsOf(s.inbounds[i]);
    assert SomeTagged(ins, k) <==> SomeTagged(s.inbounds, k) by {
      if i :| 0 <= i < |ins| && k in TagsOf(s.inbounds[i]) { assert k in TagsOf(ins[i]); }
    }
    SameTagsSameFirst(ins, s.inbounds, k, v);
    AccumulatedIs(s.labels, ins, k);
    assert Has(Accumulated(s.labels, ins), k, v) <==>
        Has(s.labels, k, v) || (k !in s.labels && !Reserved(k) && FirstGives(ins, k, v));
    if FirstGives(s.inbounds, k, v) { assert SomeTagged(s.inbounds, k); }
  }

  lemma SameTagsSameFirst(a: seq<Inbound>, b: seq<Inbound>, k: string, v: string)
    requires |a| == |b| && forall i :: 0 <= i < |a| ==> TagsOf(a[i]) == TagsOf(b[i])
    ensures FirstGives(a, k, v) <==> FirstGives(b, k, v)
  {
    hide TagsOf;
    if FirstGives(a, k, v) {
      var i :| 0 <= i < |a| && Has(TagsOf(a[i]), k, v) && forall j :: 0 <= j < i ==> k !in TagsOf(a[j]);
      assert Has(TagsOf(b[i]), k, v) && forall j :: 0 <= j < i ==> TagsOf(a[j]) == TagsOf(b[j]);
    }
    if FirstGives(b, k, v) {
      var i :| 0 <= i < |b| && Has(TagsOf(b[i]), k, v) && forall j :: 0 <= j < i ==> k !in TagsOf(b[j]);
      assert Has(TagsOf(a[i]), k, v) && forall j :: 0 <= j < i ==> TagsOf(a[j]) == TagsOf(b[j]);
    }
  }

  /** An unset protocol becomes the tag's value, a set one stays. */
  lemma ProtocolFromTag(s: State, i: nat)
    requires i < |s.inbounds|
    ensures var out := Fix(s);
      && |out.inbounds| == |s.inbounds|
      && out.inbounds[i].protocol ==
           (if s.inbounds[i].protocol != "" then s.inbounds[i].protocol
            else if PROTOCOL in TagsOf(s.inbounds[i]) then TagsOf(s.inbounds[i])[PROTOCOL] else "")
  {
    hide Conflict, Merge;
  }

  /** Labels that already hold an inbound's tags, conflicts included, take nothing more from it. */
  lemma {:induction false} NothingMoreToMove(labels: Tags, ins: seq<Inbound>)
    requires forall i, k :: 0 <= i < |ins| && k in TagsOf(ins[i]) && !Reserved(k) ==> k in labels
    ensures Accumulated(labels, ins) == labels
    decreases |ins|
  {
    hide Reserved;
    if ins != [] {
      NothingMoreToMove(labels, ins[..|ins| - 1]);
    }
  }

  /** A second run changes nothing. */
  lemma FixIdempotent(s: State)
    ensures Fix(Fix(s)) == Fix(s)
  {
    hide Reserved, Accumulated, Conflict;
    var p := s.(inbounds := WithProtocols(s.inbounds));
    var out := Fix(s);
    assert WithProtocols(out.inbounds) == out.inbounds by { ProtocolsStay(s); }
    forall i, k | 0 <= i < |out.inbounds| && k in TagsOf(out.inbounds[i]) && !Reserved(k) ensures k in out.labels {
      AccumulatedStep(p.labels, p.inbounds, i);
      MergeGrows(Accumulated(p.labels, p.inbounds[..i]), TagsOf(p.inbounds[i]));
      FinalLabels(p, i + 1, k);
    }
    NothingMoreToMove(out.labels, out.inbounds);
    forall i | 0 <= i < |out.inbounds|
      ensures Untagged(Accumulated(out.labels, out.inbounds[..i]), out.inbounds[i]) == out.inbounds[i]
    {
      NothingMoreToMove(out.labels, out.inbounds[..i]);
      if out.inbounds[i].tags.Some? {
        TagsMove(p, i);
        AgreesOrConflicts(TagsOf(out.inbounds[i]), out.labels);
      }
    }
    assert MoveTags(out.labels, out.inbounds) == out.inbounds;
    EmptyTags(out.labels);
  }

  lemma AgreesOrConflicts(tags: Tags, labels: Tags)
    requires forall k :: k in tags && !Reserved(k) ==> k in labels
    ensures Agrees(tags, labels) <==> !Conflict(labels, tags)
  {
    hide Reserved;
  }

  lemma ProtocolsStay(s: State)
    ensures WithProtocols(Fix(s).inbounds) == Fix(s).inbounds
  {
    hide Conflict, Merge;
    var out := Fix(s);
    forall i | 0 <= i < |out.inbounds| ensures WithProtocol(out.inbounds[i]) == out.inbounds[i] {
      ProtocolFromTag(s, i);
    }
  }

  // ---- MeshService selectors ---------------------------------------------------

  /** The reserved keys fixMeshServiceDataplaneTags lets through its guard. */
  predicate Tolerated(k: string) {
    k == NAMESPACE || k == ZONE || k == MESH
  }

  /** spec.selector of a MeshService: dataplaneLabels.matchLabels when there is such a map, and dataplaneTags. */
  datatype Selector = Selector(matchLabels: Option<Tags>, dataplaneTags: Option<Tags>)

  predicate Untranslatable(tags: Tags) {
    exists k :: k in tags && Reserved(k) && !Tolerated(k)
  }

  /** fixMeshServiceDataplaneTags under v3. On a conflict the tags stay for manual work, but an existing matchLabels
      map has been merged into already. */
  function FixSelector(s: Selector): Selector
    requires s.dataplaneTags.Some?
  {
    var labels, tags := s.matchLabels.Or(map[]), s.dataplaneTags.value;
    if Untranslatable(tags) then s
    else if Conflict(labels, tags) then
      if s.matchLabels.None? then s else s.(matchLabels := Some(Merge(labels, tags)))
    else Selector(Some(Merge(labels, tags)), None)
  }

  method FixMeshServiceDataplaneTags(s: Selector) returns (changed: bool, out: Selector)
    requires s.dataplaneTags.Some?
    ensures out == FixSelector(s)
    ensures changed <==> out.dataplaneTags.None?
  {
    hide Reserved, Tolerated;
    var tags := s.dataplaneTags.value;
    var keys := Sorting.SortedKeys(tags.Keys);
    var untranslatable := [];
    for i := 0 to |keys|
      invariant untranslatable != [] <==> exists j :: 0 <= j < i && Reserved(keys[j]) && !Tolerated(keys[j])
    {
      if Reserved(keys[i]) && !Tolerated(keys[i]) { untranslatable := untranslatable + [keys[i]]; }
    }
    if |untranslatable| > 0 {
      var j :| 0 <= j < |keys| && Reserved(keys[j]) && !Tolerated(keys[j]);
      assert keys[j] in Elems(keys);
      return false, s;
    }
    forall k | k in tags ensures !(Reserved(k) && !Tolerated(k)) {
      assert k in Elems(keys);
      var j :| 0 <= j < |keys| && keys[j] == k;
    }
    var merged, res := MergeTagsIntoLabels(s.matchLabels.Or(map[]), tags);
    if |res.conflicts| > 0 {
      return false, if s.matchLabels.Some? then s.(matchLabels := Some(merged)) else s;
    }
    return true, Selector(Some(merged), None);
  }

  /** Both parts of a selector match. */
  ghost predicate SelectorMatches(s: Selector, labels: Tags) {
    LabelsMatch(s.matchLabels.Or(map[]), labels) && LabelsMatch(s.dataplaneTags.Or(map[]), labels)
  }

  /** When the tags become labels, and what happens otherwise: a key under a reserved prefix stops the step, three of
      them excepted, and so does a conflict, which leaves an existing map of labels half merged. */
  lemma SelectorConverts(s: Selector)
    requires s.dataplaneTags.Some?
    ensures var out, tags, labels := FixSelector(s), s.dataplaneTags.value, s.matchLabels.Or(map[]);
      var stopped := exists k :: k in tags && Reserved(k) &&
                       k !in {"k8s.kuma.io/namespace", "kuma.io/zone", "kuma.io/mesh"};
      && (stopped ==> out == s)
      && (out.dataplaneTags.None? <==> !stopped && !Conflict(labels, tags))
      && (out.dataplaneTags.Some? ==> out.dataplaneTags == s.dataplaneTags)
      && (!stopped ==> out.matchLabels == Some(Merge(labels, tags)))
  {
    hide Reserved;
  }

  /** A rewritten selector matches exactly the label sets it matched before, its tags read as labels, if and only if
      it was not converted or no reserved key is among the tags, except one matchLabels already asks for. The three
      reserved keys the guard lets through are the gap: they are never copied, and the tags are then deleted. */
  lemma SelectorPreserved(s: Selector)
    requires s.dataplaneTags.Some?
    ensures (forall labels: Tags :: SelectorMatches(FixSelector(s), labels) <==> SelectorMatches(s, labels))
       <==> || Untranslatable(s.dataplaneTags.value) || Conflict(s.matchLabels.Or(map[]), s.dataplaneTags.value)
            || forall k :: k in s.dataplaneTags.value && Reserved(k) ==>
                Has(s.matchLabels.Or(map[]), k, s.dataplaneTags.value[k])
  {
    hide Reserved, Tolerated;
    var matchLabels, tags, out := s.matchLabels.Or(map[]), s.dataplaneTags.value, FixSelector(s);
    if out.dataplaneTags.Some? {
      forall labels: Tags ensures SelectorMatches(out, labels) <==> SelectorMatches(s, labels) {
        ConflictKeepsMeaning(matchLabels, tags, labels);
      }
    } else {
      MergedMeans(matchLabels, tags);
      forall labels: Tags ensures SelectorMatches(out, labels) <==> LabelsMatch(Merge(matchLabels, tags), labels) {
        assert LabelsMatch(map[], labels);
      }
    }
  }

  /** Merging some of the tags next to the tags themselves changes nothing: where they conflict nothing matched. */
  lemma ConflictKeepsMeaning(matchLabels: Tags, tags: Tags, labels: Tags)
    ensures LabelsMatch(Merge(matchLabels, tags), labels) && LabelsMatch(tags, labels) <==>
              LabelsMatch(matchLabels, labels) && LabelsMatch(tags, labels)
  {
    hide Reserved;
    var merged := Merge(matchLabels, tags);
    assert forall k :: k in matchLabels ==> k in merged && merged[k] == matchLabels[k];
    assert forall k :: k in merged && k !in matchLabels ==> k in tags && merged[k] == tags[k];
    if LabelsMatch(merged, labels) {
      forall k | k in matchLabels ensures k in labels && labels[k] == matchLabels[k] { assert k in merged; }
    }
  }

  lemma MergedMeans(matchLabels: Tags, tags: Tags)
    requires !Conflict(matchLabels, tags)
    ensures (forall labels: Tags :: LabelsMatch(Merge(matchLabels, tags), labels) <==>
              LabelsMatch(matchLabels, labels) && LabelsMatch(tags, labels))
       <==> (forall k :: k in tags && Reserved(k) ==> Has(matchLabels, k, tags[k]))
  {
    hide Reserved;
    var out := Merge(matchLabels, tags);
    if forall k :: k in tags && Reserved(k) ==> Has(matchLabels, k, tags[k]) {
      forall labels: Tags
        ensures LabelsMatch(out, labels) <==> LabelsMatch(matchLabels, labels) && LabelsMatch(tags, labels)
      {
        assert forall k :: k in out <==> k in matchLabels || k in tags;
        assert forall k :: k in matchLabels ==> out[k] == matchLabels[k];
        assert forall k :: k in tags ==> out[k] == tags[k];
        if LabelsMatch(out, labels) {
          forall k | k in tags ensures k in labels && labels[k] == tags[k] { assert k in out; }
          forall k | k in matchLabels ensures k in labels && labels[k] == matchLabels[k] { assert k in out; }
        }
      }
    }
    if forall labels: Tags ::
        LabelsMatch(out, labels) <==> LabelsMatch(matchLabels, labels) && LabelsMatch(tags, labels) {
      assert LabelsMatch(out, out);
      assert LabelsMatch(tags, out);
    }
  }

  /** A concrete selector that widens: it now matches labels of any namespace. */
  lemma NamespaceTagIsLost(labels: Tags)
    requires Has(labels, APP, "web")
    ensures var s := Selector(None, Some(map[NAMESPACE := "demo", APP := "web"]));
      && FixSelector(s) == Selector(Some(map[APP := "web"]), None)
      && SelectorMatches(FixSelector(s), labels)
      && (!Has(labels, NAMESPACE, "demo") ==> !SelectorMatches(s, labels))
  {
    var tags := map[NAMESPACE := "demo", APP := "web"];
    assert Reserved(NAMESPACE) && !Reserved(APP);
    assert Merge(map[], tags) == map[APP := "web"];
    assert NAMESPACE in tags;
  }
}
