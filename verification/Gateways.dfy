/** Built-in gateways across documents (gateway.go, gatewayroute.go): the index that links a service tag to the
    Gateway emitted for a MeshGateway, and the parentRefs of converted routes, which must name it. */
module Gateways {
  import opened Text
  import opened TagKeys
  import ServiceTag

  // ---- listener names --------------------------------------------------------

  datatype Listener = Listener(protocol: string, port: nat, tags: Tags)

  /** gatewayListenerName. */
  function BaseName(l: Listener): string {
    ToLower(l.protocol) + "-" + Decimal(l.port)
  }

  function Count(ls: seq<Listener>, base: string): nat {
    if ls == [] then 0
    else Count(ls[..|ls| - 1], base) + (if BaseName(ls[|ls| - 1]) == base then 1 else 0)
  }

  /** The first listener of a base name gets it, the n-th gets "-n" appended. */
  function NameOf(ls: seq<Listener>, i: nat): string
    requires i < |ls|
  {
    var n := Count(ls[..i + 1], BaseName(ls[i]));
    if n > 1 then BaseName(ls[i]) + "-" + Decimal(n) else BaseName(ls[i])
  }

  function ListenerNames(ls: seq<Listener>): seq<string> {
    seq(|ls|, i requires 0 <= i < |ls| => NameOf(ls, i))
  }

  /** gatewayListenerNames. */
  method GatewayListenerNames(ls: seq<Listener>) returns (names: seq<string>)
    ensures names == ListenerNames(ls)
  {
    hide BaseName, Count;
    names := [];
    var seen: map<string, nat> := map[];
    assert ls[..0] == [];
    CountNone();
    for i := 0 to |ls|
      invariant |names| == i && forall j :: 0 <= j < i ==> names[j] == NameOf(ls, j)
      invariant forall base :: Count(ls[..i], base) == if base in seen then seen[base] else 0
    {
      var base := BaseName(ls[i]);
      CountOneMore(ls, i);
      assert Count(ls[..i], base) == if base in seen then seen[base] else 0;
      var n := (if base in seen then seen[base] else 0) + 1;
      seen := seen[base := n];
      names := names + [if n > 1 then base + "-" + Decimal(n) else base];
    }
  }

  lemma CountNone()
    ensures forall base :: Count([], base) == 0
  {
  }

  lemma CountOneMore(ls: seq<Listener>, i: nat)
    requires i < |ls|
    ensures forall base :: Count(ls[..i + 1], base) == Count(ls[..i], base) + if BaseName(ls[i]) == base then 1 else 0
  {
    hide BaseName;
    assert ls[..i + 1][..i] == ls[..i];
  }

  lemma {:induction false} CountGrows(ls: seq<Listener>, i: nat, j: nat, base: string)
    requires i < j < |ls| && BaseName(ls[j]) == base
    ensures Count(ls[..i + 1], base) < Count(ls[..j + 1], base)
    decreases j
  {
    hide BaseName;
    assert ls[..j + 1][..j] == ls[..j];
    CountMonotone(ls, i + 1, j, base);
  }

  lemma {:induction false} CountMonotone(ls: seq<Listener>, i: nat, j: nat, base: string)
    requires i <= j <= |ls|
    ensures Count(ls[..i], base) <= Count(ls[..j], base)
    decreases j - i
  {
    if i < j {
      CountMonotone(ls, i, j - 1, base);
      assert ls[..j][..j - 1] == ls[..j - 1];
    }
  }

  lemma {:induction false} CountOfLast(ls: seq<Listener>, i: nat)
    requires i < |ls|
    ensures Count(ls[..i + 1], BaseName(ls[i])) >= 1
  {
    assert ls[..i + 1][..i] == ls[..i];
  }

  predicate HyphenFree(ls: seq<Listener>) {
    forall i :: 0 <= i < |ls| ==> '-' !in ls[i].protocol
  }

  lemma {:induction false} HyphenSplits(a: string, b: string, x: string, y: string)
    requires '-' !in a && '-' !in b && a + "-" + x == b + "-" + y
    ensures a == b && x == y
    decreases |a|
  {
    var s, t := a + "-" + x, b + "-" + y;
    assert a == "" ==> s[0] == '-' && s[1..] == x;
    assert b == "" ==> t[0] == '-' && t[1..] == y;
    assert a != "" ==> s[0] == a[0] && a[0] in a;
    assert b != "" ==> t[0] == b[0] && b[0] in b;
    if a != "" && b != "" {
      assert s[1..] == a[1..] + "-" + x && t[1..] == b[1..] + "-" + y;
      HyphenSplits(a[1..], b[1..], x, y);
      assert a == [a[0]] + a[1..] && b == [b[0]] + b[1..];
    }
  }

  /** The parts of a listener name: protocol, port, and the repeat number if any. */
  function Repeat(n: nat): string {
    if n > 1 then "-" + Decimal(n) else ""
  }

  lemma NameParts(ls: seq<Listener>, i: nat)
    requires i < |ls| && HyphenFree(ls)
    ensures var n := Count(ls[..i + 1], BaseName(ls[i]));
      && NameOf(ls, i) == ToLower(ls[i].protocol) + "-" + (Decimal(ls[i].port) + Repeat(n))
      && '-' !in ToLower(ls[i].protocol)
  {
  }

  lemma RepeatMark(p: nat, m: nat)
    ensures '-' in Decimal(p) + Repeat(m) <==> m > 1
  {
    if m > 1 { assert (Decimal(p) + Repeat(m))[|Decimal(p)|] == '-'; }
  }

  lemma NoHyphen(n: nat)
    ensures '-' !in Decimal(n)
  {
  }

  /** A numbered name that is the base name of another listener. */
  predicate Clash(ls: seq<Listener>, i: nat, j: nat)
    requires i < |ls| && j < |ls|
  {
    Count(ls[..i + 1], BaseName(ls[i])) > 1 && NameOf(ls, i) == BaseName(ls[j])
  }

  /** Listener names are pairwise distinct if and only if no numbered name is the base name of a listener. */
  lemma ListenerNamesDistinct(ls: seq<Listener>)
    ensures Distinct(ListenerNames(ls)) <==> forall i, j :: 0 <= i < |ls| && 0 <= j < |ls| ==> !Clash(ls, i, j)
  {
    hide BaseName, NameOf, Clash;
    var names := ListenerNames(ls);
    if i, j :| 0 <= i < |ls| && 0 <= j < |ls| && Clash(ls, i, j) {
      var k := ClashMeets(ls, i, j);
      assert names[i] == names[k];
    } else {
      forall i, j | 0 <= i < j < |ls| ensures names[i] != names[j] {
        if NameOf(ls, i) == NameOf(ls, j) { SameNameClashes(ls, i, j); }
      }
    }
  }

  /** The first listener of the base name has it as its name. */
  lemma ClashMeets(ls: seq<Listener>, i: nat, j: nat) returns (k: nat)
    requires i < |ls| && j < |ls| && Clash(ls, i, j)
    ensures k < |ls| && k != i && NameOf(ls, k) == NameOf(ls, i)
  {
    hide BaseName;
    k := FirstOfBase(ls, j);
    assert |NameOf(ls, i)| > |BaseName(ls[i])|;
  }

  lemma {:induction false} FirstOfBase(ls: seq<Listener>, j: nat) returns (k: nat)
    requires j < |ls|
    ensures k <= j && BaseName(ls[k]) == BaseName(ls[j]) && NameOf(ls, k) == BaseName(ls[j])
    decreases j
  {
    hide BaseName;
    if h :| 0 <= h < j && BaseName(ls[h]) == BaseName(ls[j]) {
      k := FirstOfBase(ls, h);
    } else {
      k := j;
      NoneBefore(ls, j, BaseName(ls[j]));
      assert ls[..j + 1][..j] == ls[..j];
    }
  }

  lemma {:induction false} NoneBefore(ls: seq<Listener>, n: nat, base: string)
    requires n <= |ls| && forall h :: 0 <= h < n ==> BaseName(ls[h]) != base
    ensures Count(ls[..n], base) == 0
  {
    if n > 0 {
      NoneBefore(ls, n - 1, base);
      assert ls[..n][..n - 1] == ls[..n - 1];
    }
  }

  lemma SameNameClashes(ls: seq<Listener>, i: nat, j: nat)
    requires i < j < |ls| && NameOf(ls, i) == NameOf(ls, j)
    ensures Clash(ls, i, j) || Clash(ls, j, i)
  {
    hide BaseName, Decimal;
    var a, b := BaseName(ls[i]), BaseName(ls[j]);
    var m, n := Count(ls[..i + 1], a), Count(ls[..j + 1], b);
    CountOfLast(ls, i);
    CountOfLast(ls, j);
    assert |a + "-" + Decimal(n)| > |a|;
    if m > 1 && n > 1 { NumberedSplits(a, b, m, n); }
    if a == b { CountGrows(ls, i, j, b); }
  }

  lemma NumberedSplits(a: string, b: string, m: nat, n: nat)
    requires a + "-" + Decimal(m) == b + "-" + Decimal(n)
    ensures a == b && m == n
  {
    hide Decimal;
    NoHyphen(m);
    NoHyphen(n);
    assert "-" == ['-'];
    LastIndexOfChar(a, '-', Decimal(m));
    LastIndexOfChar(b, '-', Decimal(n));
    var s := a + "-" + Decimal(m);
    assert s[..|a|] == a && s[..|b|] == b;
    assert s[|a| + 1..] == Decimal(m) && s[|b| + 1..] == Decimal(n);
    DecimalInjective(m, n);
  }

  /** In particular when no protocol has a hyphen. */
  lemma HyphenFreeDistinct(ls: seq<Listener>)
    requires HyphenFree(ls)
    ensures Distinct(ListenerNames(ls))
  {
    hide BaseName, ToLower;
    forall i, j | 0 <= i < |ls| && 0 <= j < |ls| ensures !Clash(ls, i, j) {
      if Clash(ls, i, j) {
        NameParts(ls, i);
        BaseParts(ls[j]);
        BaseParts(ls[i]);
        var n := Count(ls[..i + 1], BaseName(ls[i]));
        HyphenSplits(ToLower(ls[i].protocol), ToLower(ls[j].protocol),
                     Decimal(ls[i].port) + Repeat(n), Decimal(ls[j].port));
        RepeatMark(ls[i].port, n);
        NoHyphen(ls[j].port);
      }
    }
    ListenerNamesDistinct(ls);
  }

  lemma BaseParts(l: Listener)
    ensures BaseName(l) == ToLower(l.protocol) + "-" + Decimal(l.port)
    ensures '-' !in l.protocol ==> '-' !in ToLower(l.protocol)
  {
  }

  /** With a hyphen they can clash. */
  lemma HyphenatedProtocolClashes(t: Tags)
    ensures var ls := [Listener("http", 80, t), Listener("http", 80, t), Listener("http-80", 2, t)];
            NameOf(ls, 1) == "http-80-2" == NameOf(ls, 2)
  {
    var a, b := Listener("http", 80, t), Listener("http-80", 2, t);
    var ls := [a, a, b];
    assert Decimal(8) == "8" && Decimal(80) == "80" && Decimal(2) == "2";
    assert ToLower("http") == "http" && ToLower("http-80") == "http-80";
    assert BaseName(a) == "http-80" && BaseName(b) == "http-80-2";
    assert ls[..1] == [a] && ls[..2] == [a, a] && ls[..3] == [a, a, b];
    assert [a, a][..1] == [a] && [a][..0] == [] && [a, a, b][..2] == [a, a];
    assert Count([a], "http-80") == 1 && Count([a, a], "http-80") == 2;
    hide BaseName, ToLower, Decimal;
    assert |BaseName(a)| == 7 && |"http-80-2"| == 9;
    assert Count([], "http-80-2") == 0;
    assert Count([a], "http-80-2") == 0;
    assert Count([a, a], "http-80-2") == 0;
    assert Count([a, a, b], "http-80-2") == 1;
    assert "http-80" + "-" + Decimal(2) == "http-80-2";
  }

  // ---- documents and the index -------------------------------------------------

  datatype MeshGateway = MeshGateway(name: string, namespace: string, selectors: seq<Tags>, tags: Tags,
                                     listeners: seq<Listener>)

  datatype Doc =
    | Instance(name: string, namespace: string, tags: Tags)
    | Gateway(gw: MeshGateway)
    | Other

  function AddTag(out: seq<string>, v: string): seq<string> {
    if v == "" || v == "*" || v in out then out else out + [v]
  }

  function SelectorTags(sels: seq<Tags>): seq<string> {
    if sels == [] then [] else AddTag(SelectorTags(sels[..|sels| - 1]), TagOr(sels[|sels| - 1], SERVICE))
  }

  /** gatewayServiceTags. */
  function ServiceTags(gw: MeshGateway): seq<string> {
    AddTag(SelectorTags(gw.selectors), TagOr(gw.tags, SERVICE))
  }

  /** gatewayInstanceServiceTag. */
  function InstanceTag(d: Doc): string
    requires d.Instance?
  {
    if TagOr(d.tags, SERVICE) != "" then d.tags[SERVICE]
    else if d.name != "" && d.namespace != "" then ServiceTag.EncodeGateway(d.name, d.namespace)
    else ""
  }

  datatype IndexedGateway = IndexedGateway(name: string, namespace: string, tags: seq<string>,
                                           listeners: seq<(string, Tags)>)

  /** newIndexedGateway. */
  function Indexed(gw: MeshGateway): IndexedGateway {
    IndexedGateway(gw.name, gw.namespace, ServiceTags(gw),
                   seq(|gw.listeners|, i requires 0 <= i < |gw.listeners| =>
                       (NameOf(gw.listeners, i), gw.listeners[i].tags)))
  }

  datatype Index = Index(gateways: map<string, seq<IndexedGateway>>, namespaces: map<string, seq<string>>)

  function GatewaysFor(idx: Index, tag: string): seq<IndexedGateway> {
    if tag in idx.gateways then idx.gateways[tag] else []
  }

  function NamespacesFor(idx: Index, tag: string): seq<string> {
    if tag in idx.namespaces then idx.namespaces[tag] else []
  }

  /** Appending and then sorting stably by name. */
  function InsertByName(list: seq<IndexedGateway>, e: IndexedGateway): seq<IndexedGateway> {
    if list == [] then [e]
    else if Less(e.name, list[0].name) then [e] + list
    else [list[0]] + InsertByName(list[1..], e)
  }

  ghost predicate StrictByName(list: seq<IndexedGateway>) {
    forall i, j :: 0 <= i < j < |list| ==> Less(list[i].name, list[j].name)
  }

  lemma {:induction false} InsertElems(list: seq<IndexedGateway>, e: IndexedGateway)
    ensures forall x :: x in InsertByName(list, e) <==> x in list || x == e
  {
    if list != [] && !Less(e.name, list[0].name) {
      InsertElems(list[1..], e);
      forall x ensures x in InsertByName(list, e) <==> x in list || x == e {
        assert list == [list[0]] + list[1..];
      }
    }
  }

  lemma {:induction false} InsertStrict(list: seq<IndexedGateway>, e: IndexedGateway)
    requires StrictByName(list) && forall x :: x in list ==> x.name != e.name
    ensures StrictByName(InsertByName(list, e))
  {
    if list != [] {
      assert list[0] in list;
      LessTrichotomy(e.name, list[0].name);
      if Less(e.name, list[0].name) {
        forall j | 0 <= j < |list| ensures Less(e.name, list[j].name) {
          if j > 0 { LessTransitive(e.name, list[0].name, list[j].name); }
        }
      } else {
        assert forall x :: x in list[1..] ==> x in list;
        InsertStrict(list[1..], e);
        InsertElems(list[1..], e);
        var rest := InsertByName(list[1..], e);
        forall j | 0 <= j < |rest| ensures Less(list[0].name, rest[j].name) {
          assert rest[j] in rest;
        }
      }
    }
  }

  predicate Declares(d: Doc, tag: string, ns: string) {
    d.Instance? && tag != "" && ns != "" && InstanceTag(d) == tag && d.namespace == ns
  }

  predicate Carries(d: Doc, tag: string) {
    d.Gateway? && d.gw.name != "" && tag in ServiceTags(d.gw)
  }

  /** The tags of a gateway: the service tags of its selectors and its own, without empty ones and '*'. */
  lemma ServiceTagsMean(gw: MeshGateway, tag: string)
    ensures tag in ServiceTags(gw) <==>
              && tag != "" && tag != "*"
              && (|| Has(gw.tags, SERVICE, tag)
                  || exists i :: 0 <= i < |gw.selectors| && Has(gw.selectors[i], SERVICE, tag))
  {
    SelectorTagsMean(gw.selectors, tag);
  }

  lemma {:induction false} SelectorTagsMean(sels: seq<Tags>, tag: string)
    ensures tag in SelectorTags(sels) <==>
              tag != "" && tag != "*" && exists i :: 0 <= i < |sels| && Has(sels[i], SERVICE, tag)
  {
    if sels != [] {
      var init, last := sels[..|sels| - 1], sels[|sels| - 1];
      SelectorTagsMean(init, tag);
      if i :| 0 <= i < |init| && Has(init[i], SERVICE, tag) { assert Has(sels[i], SERVICE, tag); }
      if i :| 0 <= i < |sels| && Has(sels[i], SERVICE, tag) { if i < |init| { assert Has(init[i], SERVICE, tag); } }
    }
  }

  /** What the index is asked: an instance of the namespace that has the service tag or, without one, whose generated
      tag it is; and a named gateway with this tag. */
  lemma DeclaresMeans(d: Doc, tag: string, ns: string)
    ensures Declares(d, tag, ns) <==>
              && d.Instance? && d.namespace == ns && ns != "" && tag != ""
              && (|| Has(d.tags, SERVICE, tag)
                  || (TagOr(d.tags, SERVICE) == "" && d.name != "" && tag == d.name + "_" + ns + "_svc"))
    ensures Carries(d, tag) <==> d.Gateway? && d.gw.name != "" && tag in ServiceTags(d.gw)
  {
    assert ServiceTag.SVC_SUFFIX == "_svc";
  }

  /** No two MeshGateways share a name. */
  ghost predicate DistinctGateways(docs: seq<Doc>) {
    forall i, j :: 0 <= i < j < |docs| && docs[i].Gateway? && docs[j].Gateway? ==> docs[i].gw.name != docs[j].gw.name
  }

  ghost predicate RightNamespaces(list: seq<string>, docs: seq<Doc>, tag: string) {
    && StrictlySorted(list)
    && forall ns :: ns in list <==> exists i :: 0 <= i < |docs| && Declares(docs[i], tag, ns)
  }

  ghost predicate RightGateways(list: seq<IndexedGateway>, docs: seq<Doc>, tag: string) {
    && (DistinctGateways(docs) ==> StrictByName(list))
    && forall g :: g in list <==> exists i :: 0 <= i < |docs| && Carries(docs[i], tag) && g == Indexed(docs[i].gw)
  }

  /** The index holds, under each tag, exactly what the documents say. */
  ghost predicate Represents(idx: Index, docs: seq<Doc>) {
    forall tag :: RightNamespaces(NamespacesFor(idx, tag), docs, tag) && RightGateways(GatewaysFor(idx, tag), docs, tag)
  }

  lemma NamespacesGrow(list: seq<string>, docs: seq<Doc>, d: Doc, tag: string, more: seq<string>)
    requires RightNamespaces(list, docs, tag)
    requires if exists ns :: Declares(d, tag, ns) then d.Instance? && more == InsertSorted(list, d.namespace)
              else more == list
    ensures RightNamespaces(more, docs + [d], tag)
  {
    hide InstanceTag;
    if exists ns :: Declares(d, tag, ns) { InsertKeepsSorted(list, d.namespace); }
    forall ns ensures ns in more <==> exists i :: 0 <= i < |docs + [d]| && Declares((docs + [d])[i], tag, ns) {
      assert ns in more <==> ns in list || Declares(d, tag, ns) by {
        if exists ns' :: Declares(d, tag, ns') {
          assert ns in more <==> ns in Elems(more);
          assert ns in list <==> ns in Elems(list);
        }
      }
      if i :| 0 <= i < |docs| && Declares(docs[i], tag, ns) { assert (docs + [d])[i] == docs[i]; }
      assert (docs + [d])[|docs|] == d;
    }
  }

  lemma GatewaysGrow(list: seq<IndexedGateway>, docs: seq<Doc>, d: Doc, tag: string, more: seq<IndexedGateway>)
    requires RightGateways(list, docs, tag)
    requires if Carries(d, tag) then more == InsertByName(list, Indexed(d.gw)) else more == list
    ensures RightGateways(more, docs + [d], tag)
  {
    hide ServiceTags, Indexed;
    var all := docs + [d];
    if Carries(d, tag) { InsertElems(list, Indexed(d.gw)); }
    assert forall i :: 0 <= i < |docs| ==> all[i] == docs[i];
    forall g ensures g in more <==> exists i :: 0 <= i < |all| && Carries(all[i], tag) && g == Indexed(all[i].gw) {
      if i :| 0 <= i < |docs| && Carries(docs[i], tag) && g == Indexed(docs[i].gw) { assert all[i] == docs[i]; }
      assert all[|docs|] == d;
    }
    if DistinctGateways(all) {
      assert DistinctGateways(docs) by {
        forall i, j | 0 <= i < j < |docs| && docs[i].Gateway? && docs[j].Gateway?
          ensures docs[i].gw.name != docs[j].gw.name
        {
          assert all[i] == docs[i] && all[j] == docs[j];
        }
      }
      if Carries(d, tag) {
        forall x | x in list ensures x.name != Indexed(d.gw).name {
          var i :| 0 <= i < |docs| && Carries(docs[i], tag) && x == Indexed(docs[i].gw);
          assert all[i] == docs[i] && all[|docs|] == d;
          IndexedName(docs[i].gw);
          IndexedName(d.gw);
        }
        InsertStrict(list, Indexed(d.gw));
      }
    }
  }

  lemma IndexedName(gw: MeshGateway)
    ensures Indexed(gw).name == gw.name
  {
  }

  class GatewayRefIndex {
    var gateways: map<string, seq<IndexedGateway>>
    var namespaces: map<string, seq<string>>
    ghost var docs: seq<Doc>

    ghost function Current(): Index
      reads this
    {
      Index(gateways, namespaces)
    }

    ghost predicate Valid()
      reads this
    {
      Represents(Current(), docs)
    }

    constructor ()
      ensures Valid() && docs == []
    {
      gateways, namespaces, docs := map[], map[], [];
    }

    /** add: indexes one document. */
    method Add(d: Doc)
      requires Valid()
      modifies this
      ensures Valid() && docs == old(docs) + [d]
    {
      hide RightNamespaces, RightGateways, ServiceTags, Indexed;
      ghost var before := Current();
      match d {
        case Instance(_, _, _) => AddInstance(d);
        case Gateway(gw) => AddGateway(d);
        case Other =>
      }
      docs := docs + [d];
      forall tag
        ensures RightNamespaces(NamespacesFor(Current(), tag), docs, tag)
        ensures RightGateways(GatewaysFor(Current(), tag), docs, tag)
      {
        assert RightNamespaces(NamespacesFor(before, tag), old(docs), tag) &&
            RightGateways(GatewaysFor(before, tag), old(docs), tag);
        NamespacesGrow(NamespacesFor(before, tag), old(docs), d, tag, NamespacesFor(Current(), tag));
        GatewaysGrow(GatewaysFor(before, tag), old(docs), d, tag, GatewaysFor(Current(), tag));
      }
    }

    method AddInstance(d: Doc)
      requires d.Instance?
      modifies this`namespaces
      ensures forall tag :: NamespacesFor(Current(), tag) ==
                if exists ns :: Declares(d, tag, ns) then InsertSorted(NamespacesFor(old(Current()), tag), d.namespace)
                else NamespacesFor(old(Current()), tag)
    {
      var tag := InstanceTag(d);
      if tag == "" || d.namespace == "" { return; }
      assert Declares(d, tag, d.namespace);
      namespaces := namespaces[tag := InsertSorted(if tag in namespaces then namespaces[tag] else [], d.namespace)];
    }

    method AddGateway(d: Doc)
      requires d.Gateway?
      modifies this`gateways
      ensures forall tag :: GatewaysFor(Current(), tag) ==
                if Carries(d, tag) then InsertByName(GatewaysFor(old(Current()), tag), Indexed(d.gw))
                else GatewaysFor(old(Current()), tag)
    {
      hide Indexed, SelectorTags, InsertByName;
      if d.gw.name == "" { return; }
      var entry, tags := Indexed(d.gw), ServiceTags(d.gw);
      TagsDistinct(d.gw);
      for i := 0 to |tags|
        invariant forall tag :: GatewaysFor(Current(), tag) ==
                    if tag in tags[..i] then InsertByName(GatewaysFor(old(Current()), tag), entry)
                    else GatewaysFor(old(Current()), tag)
      {
        var tag := tags[i];
        assert tag !in tags[..i] && tags[..i + 1] == tags[..i] + [tag];
        assert GatewaysFor(Current(), tag) == GatewaysFor(old(Current()), tag);
        gateways := gateways[tag := InsertByName(if tag in gateways then gateways[tag] else [], entry)];
      }
      assert tags[..|tags|] == tags;
    }
  }

  lemma {:induction false} SelectorTagsDistinct(sels: seq<Tags>)
    ensures Distinct(SelectorTags(sels))
  {
    if sels != [] { SelectorTagsDistinct(sels[..|sels| - 1]); }
  }

  lemma TagsDistinct(gw: MeshGateway)
    ensures Distinct(ServiceTags(gw))
  {
    SelectorTagsDistinct(gw.selectors);
  }

  /** Lookups do not depend on the order the documents were read in. */
  lemma LookupsIgnoreOrder(a: Index, b: Index, docsA: seq<Doc>, docsB: seq<Doc>, tag: string)
    requires Represents(a, docsA) && Represents(b, docsB)
    requires forall d :: d in docsA <==> d in docsB
    requires DistinctGateways(docsA) && DistinctGateways(docsB)
    ensures NamespacesFor(a, tag) == NamespacesFor(b, tag) && GatewaysFor(a, tag) == GatewaysFor(b, tag)
  {
    hide ServiceTags, Indexed, InstanceTag;
    var na, nb := NamespacesFor(a, tag), NamespacesFor(b, tag);
    var ga, gb := GatewaysFor(a, tag), GatewaysFor(b, tag);
    assert RightNamespaces(na, docsA, tag) && RightNamespaces(nb, docsB, tag);
    assert RightGateways(ga, docsA, tag) && RightGateways(gb, docsB, tag);
    forall ns ensures ns in na <==> ns in nb {
      SameDeclarations(docsA, docsB, tag, ns);
      SameDeclarations(docsB, docsA, tag, ns);
    }
    assert forall ns :: ns in Elems(na) <==> ns in Elems(nb);
    SortedUnique(na, nb);
    forall g ensures g in ga <==> g in gb { SameCarriers(docsA, docsB, tag, g); SameCarriers(docsB, docsA, tag, g); }
    StrictUnique(ga, gb);
  }

  lemma SameDeclarations(docsA: seq<Doc>, docsB: seq<Doc>, tag: string, ns: string)
    requires forall d :: d in docsA ==> d in docsB
    ensures (exists i :: 0 <= i < |docsA| && Declares(docsA[i], tag, ns)) ==>
              exists j :: 0 <= j < |docsB| && Declares(docsB[j], tag, ns)
  {
    if i :| 0 <= i < |docsA| && Declares(docsA[i], tag, ns) {
      assert docsA[i] in docsA;
      var j :| 0 <= j < |docsB| && docsB[j] == docsA[i];
    }
  }

  lemma SameCarriers(docsA: seq<Doc>, docsB: seq<Doc>, tag: string, g: IndexedGateway)
    requires forall d :: d in docsA ==> d in docsB
    ensures (exists i :: 0 <= i < |docsA| && Carries(docsA[i], tag) && g == Indexed(docsA[i].gw)) ==>
              exists j :: 0 <= j < |docsB| && Carries(docsB[j], tag) && g == Indexed(docsB[j].gw)
  {
    if i :| 0 <= i < |docsA| && Carries(docsA[i], tag) && g == Indexed(docsA[i].gw) {
      assert docsA[i] in docsA;
      var j :| 0 <= j < |docsB| && docsB[j] == docsA[i];
    }
  }

  lemma {:induction false} StrictUnique(a: seq<IndexedGateway>, b: seq<IndexedGateway>)
    requires StrictByName(a) && StrictByName(b) && forall g :: g in a <==> g in b
    ensures a == b
    decreases |a|
  {
    assert a != [] ==> a[0] in a;
    assert b != [] ==> b[0] in b;
    if a != [] && b != [] {
      assert a[0] == b[0] by {
        var i :| 0 <= i < |b| && b[i] == a[0];
        var j :| 0 <= j < |a| && a[j] == b[0];
        LessTrichotomy(a[0].name, b[0].name);
      }
      LessTrichotomy(a[0].name, a[0].name);
      forall g ensures g in a[1..] <==> g in b[1..] {
        TailElems(a, g);
        TailElems(b, g);
      }
      StrictUnique(a[1..], b[1..]);
      assert a == [a[0]] + a[1..] && b == [b[0]] + b[1..];
    }
  }

  lemma TailElems(a: seq<IndexedGateway>, g: IndexedGateway)
    requires a != [] && StrictByName(a)
    ensures g in a[1..] <==> g in a && g != a[0]
  {
    LessTrichotomy(a[0].name, a[0].name);
    assert a == [a[0]] + a[1..];
  }

  // ---- namespaces ----------------------------------------------------------------

  function AddAll(out: seq<string>, ns: seq<string>): seq<string>
    decreases ns
  {
    if ns == [] then out else AddAll(InsertSorted(out, ns[0]), ns[1..])
  }

  function Declared(idx: Index, tags: seq<string>, out: seq<string>): seq<string> {
    if tags == [] then out else Declared(idx, tags[1..], AddAll(out, NamespacesFor(idx, tags[0])))
  }

  /** gatewayNamespace: every candidate, the one used first. */
  function Candidates(idx: Index, g: IndexedGateway): seq<string> {
    var out := Declared(idx, g.tags, []);
    if out == [] && g.namespace != "" then [g.namespace] else out
  }

  method GatewayNamespace(idx: Index, g: IndexedGateway) returns (out: seq<string>)
    ensures out == Candidates(idx, g)
  {
    out := [];
    for i := 0 to |g.tags|
      invariant Declared(idx, g.tags, []) == Declared(idx, g.tags[i..], out)
    {
      var ns := NamespacesFor(idx, g.tags[i]);
      ghost var before := out;
      for j := 0 to |ns|
        invariant AddAll(before, ns) == AddAll(out, ns[j..])
      {
        assert ns[j..][1..] == ns[j + 1..];
        out := InsertSorted(out, ns[j]);
      }
      assert g.tags[i..][1..] == g.tags[i + 1..];
    }
    if |out| == 0 && g.namespace != "" { out := [g.namespace]; }
  }

  function FirstOf(candidates: seq<string>): Option<string> {
    if candidates == [] then None else Some(candidates[0])
  }

  lemma {:induction false} AddAllElems(out: seq<string>, more: seq<string>)
    requires StrictlySorted(out)
    ensures StrictlySorted(AddAll(out, more)) && Elems(AddAll(out, more)) == Elems(out) + Elems(more)
    decreases |more|
  {
    if more != [] {
      InsertKeepsSorted(out, more[0]);
      AddAllElems(InsertSorted(out, more[0]), more[1..]);
      assert more == [more[0]] + more[1..];
    }
  }

  lemma {:induction false} DeclaredElems(idx: Index, tags: seq<string>, out: seq<string>)
    requires StrictlySorted(out)
    ensures StrictlySorted(Declared(idx, tags, out))
    ensures forall ns :: ns in Declared(idx, tags, out) <==>
              ns in out || exists t :: t in tags && ns in NamespacesFor(idx, t)
    decreases |tags|
  {
    hide NamespacesFor;
    if tags != [] {
      var next := AddAll(out, NamespacesFor(idx, tags[0]));
      AddAllElems(out, NamespacesFor(idx, tags[0]));
      DeclaredElems(idx, tags[1..], next);
      assert tags == [tags[0]] + tags[1..];
      forall ns ensures ns in next <==> ns in out || ns in NamespacesFor(idx, tags[0]) {
        assert ns in next <==> ns in Elems(next);
        assert ns in out <==> ns in Elems(out);
        assert ns in NamespacesFor(idx, tags[0]) <==> ns in Elems(NamespacesFor(idx, tags[0]));
      }
    }
  }

  /** Some MeshGatewayInstance in ns declares a tag of the gateway. */
  ghost predicate DeclaredFor(docs: seq<Doc>, tags: seq<string>, ns: string) {
    exists i, t :: 0 <= i < |docs| && t in tags && Declares(docs[i], t, ns)
  }

  /** The candidates are the namespaces of the instances that share a tag with the gateway, sorted; without any,
      the gateway's own namespace. The one used is the least of them. */
  lemma CandidatesAre(idx: Index, docs: seq<Doc>, g: IndexedGateway)
    requires Represents(idx, docs)
    ensures StrictlySorted(Candidates(idx, g))
    ensures (exists ns :: DeclaredFor(docs, g.tags, ns)) ==>
              forall ns :: ns in Candidates(idx, g) <==> DeclaredFor(docs, g.tags, ns)
    ensures !(exists ns :: DeclaredFor(docs, g.tags, ns)) ==>
              Candidates(idx, g) == if g.namespace != "" then [g.namespace] else []
    ensures FirstOf(Candidates(idx, g)).Some? <==> Candidates(idx, g) != []
    ensures FirstOf(Candidates(idx, g)).Some? ==> FirstOf(Candidates(idx, g)).value in Candidates(idx, g)
    ensures FirstOf(Candidates(idx, g)).Some? ==>
              forall ns :: ns in Candidates(idx, g) ==> !Less(ns, FirstOf(Candidates(idx, g)).value)
  {
    hide NamespacesFor, GatewaysFor, Declares;
    DeclaredElems(idx, g.tags, []);
    forall ns ensures ns in Declared(idx, g.tags, []) <==> DeclaredFor(docs, g.tags, ns) {
      if t :| t in g.tags && ns in NamespacesFor(idx, t) {
        assert RightNamespaces(NamespacesFor(idx, t), docs, t);
        var i :| 0 <= i < |docs| && Declares(docs[i], t, ns);
      }
      if i, t :| 0 <= i < |docs| && t in g.tags && Declares(docs[i], t, ns) {
        assert RightNamespaces(NamespacesFor(idx, t), docs, t);
      }
    }
    var declared := Declared(idx, g.tags, []);
    assert |declared| > 0 ==> declared[0] in declared;
    assert |declared| > 0 ==> DeclaredFor(docs, g.tags, declared[0]);
    var all := Candidates(idx, g);
    forall ns | ns in all ensures !Less(ns, all[0]) {
      var i :| 0 <= i < |all| && all[i] == ns;
      LessTrichotomy(all[0], ns);
    }
  }

  datatype Emitted = Emitted(name: string, namespace: Option<string>, listeners: seq<string>)

  /** What TransformMeshGateway emits for a MeshGateway: its name, resolveGatewayNamespace, its listener names. */
  function Emit(idx: Index, gw: MeshGateway): Emitted {
    Emitted(gw.name, FirstOf(Candidates(idx, Indexed(gw))), ListenerNames(gw.listeners))
  }

  // ---- parentRefs ------------------------------------------------------------------

  datatype ParentRef = ParentRef(name: string, namespace: Option<string>, section: Option<string>)

  function OtherTags(sel: Tags): Tags {
    map k | k in sel && k != SERVICE :: sel[k]
  }

  predicate HasTags(tags: Tags, wanted: Tags) {
    forall k :: k in wanted ==> TagOr(tags, k) == wanted[k]
  }

  function Sections(ls: seq<(string, Tags)>, other: Tags): seq<string> {
    if ls == [] then []
    else
      var rest := Sections(ls[..|ls| - 1], other);
      if HasTags(ls[|ls| - 1].1, other) then rest + [ls[|ls| - 1].0] else rest
  }

  function SectionsOf(g: IndexedGateway, other: Tags): seq<string> {
    if other == map[] then [] else Sections(g.listeners, other)
  }

  function GatewayRefs(idx: Index, g: IndexedGateway, other: Tags): seq<ParentRef> {
    var ns, sections := FirstOf(Candidates(idx, g)), SectionsOf(g, other);
    if sections == [] then [ParentRef(g.name, ns, None)]
    else seq(|sections|, i requires 0 <= i < |sections| => ParentRef(g.name, ns, Some(sections[i])))
  }

  function MatchedRefs(idx: Index, matched: seq<IndexedGateway>, other: Tags): seq<ParentRef> {
    if matched == [] then []
    else MatchedRefs(idx, matched[..|matched| - 1], other) + GatewayRefs(idx, matched[|matched| - 1], other)
  }

  lemma OneKey(tags: Tags)
    requires |tags| == 1
    ensures exists k :: k in tags && forall l :: l in tags ==> l == k
  {
    assert |tags.Keys| == 1;
    var k :| k in tags.Keys;
    OnlyOne(tags.Keys, k);
  }

  /** sectionNameFromTags: a port tag, or the one tag there is when it looks like a listener name. */
  function GuessedSection(other: Tags): Option<string> {
    if other == map[] then None
    else if "port" in other then if other["port"] == "" then None else Some(other["port"])
    else if |other| == 1 then
      OneKey(other);
      var k :| k in other;
      if '-' in other[k] then Some(other[k]) else None
    else None
  }

  /** heuristicParentRef. */
  function GuessedRef(tag: string, other: Tags, routeNS: string): ParentRef {
    var id := ServiceTag.ParseGateway(tag);
    ParentRef(if id.name == "" then tag else id.name,
              if id.namespace != "" && id.namespace != routeNS then Some(id.namespace) else None, GuessedSection(other))
  }

  function SelectorRefs(idx: Index, sel: Tags, routeNS: string): seq<ParentRef> {
    var tag := TagOr(sel, SERVICE);
    if tag == "" then [ParentRef("(unknown-gateway)", None, GuessedSection(OtherTags(sel)))]
    else if GatewaysFor(idx, tag) == [] then [GuessedRef(tag, OtherTags(sel), routeNS)]
    else MatchedRefs(idx, GatewaysFor(idx, tag), OtherTags(sel))
  }

  function AllRefs(idx: Index, sels: seq<Tags>, routeNS: string): seq<ParentRef> {
    if sels == [] then []
    else AllRefs(idx, sels[..|sels| - 1], routeNS) + SelectorRefs(idx, sels[|sels| - 1], routeNS)
  }

  /** A selector resolved through the index, its gateways' namespaces included. */
  predicate Resolved(idx: Index, sel: Tags) {
    && TagOr(sel, SERVICE) != "" && GatewaysFor(idx, TagOr(sel, SERVICE)) != []
    && forall g :: g in GatewaysFor(idx, TagOr(sel, SERVICE)) ==> FirstOf(Candidates(idx, g)).Some?
  }

  ghost predicate UsesNamespace(idx: Index, sel: Tags, ns: string) {
    && TagOr(sel, SERVICE) != ""
    && exists g :: g in GatewaysFor(idx, TagOr(sel, SERVICE)) && FirstOf(Candidates(idx, g)) == Some(ns)
  }

  /** Every selector is resolved, and ns is the one namespace its gateways are in. */
  ghost predicate Shared(idx: Index, sels: seq<Tags>, ns: string) {
    && (forall i :: 0 <= i < |sels| ==> Resolved(idx, sels[i]))
    && (exists i :: 0 <= i < |sels| && UsesNamespace(idx, sels[i], ns))
    && forall i, x :: 0 <= i < |sels| && UsesNamespace(idx, sels[i], x) ==> x == ns
  }

  /** listenerSections. */
  method ListenerSections(g: IndexedGateway, other: Tags) returns (out: seq<string>)
    ensures out == SectionsOf(g, other)
  {
    if other == map[] { return []; }
    out := [];
    for i := 0 to |g.listeners|
      invariant out == Sections(g.listeners[..i], other)
    {
      assert g.listeners[..i + 1][..i] == g.listeners[..i];
      if HasTags(g.listeners[i].1, other) { out := out + [g.listeners[i].0]; }
    }
    assert g.listeners[..|g.listeners|] == g.listeners;
  }

  /** The parentRefs to one resolved MeshGateway. */
  method RefsToGateway(idx: Index, g: IndexedGateway, other: Tags) returns (refs: seq<ParentRef>, ns: Option<string>)
    ensures refs == GatewayRefs(idx, g, other) && ns == FirstOf(Candidates(idx, g))
  {
    hide Candidates, SectionsOf;
    var candidates := GatewayNamespace(idx, g);
    ns := if |candidates| > 0 then Some(candidates[0]) else None;
    var sections := ListenerSections(g, other);
    if |sections| == 0 { return [ParentRef(g.name, ns, None)], ns; }
    refs := [];
    for j := 0 to |sections|
      invariant |refs| == j && forall k :: 0 <= k < j ==> refs[k] == ParentRef(g.name, ns, Some(sections[k]))
    {
      refs := refs + [ParentRef(g.name, ns, Some(sections[j]))];
    }
    assert refs == GatewayRefs(idx, g, other);
  }

  /** The loop of parentRefsFromSelectors over the MeshGateways one selector resolves to. */
  method RefsToMatched(idx: Index, matched: seq<IndexedGateway>, other: Tags)
    returns (refs: seq<ParentRef>, used: set<string>, resolved: bool)
    ensures refs == MatchedRefs(idx, matched, other)
    ensures resolved <==> forall g :: g in matched ==> FirstOf(Candidates(idx, g)).Some?
    ensures forall ns :: ns in used <==> exists g :: g in matched && FirstOf(Candidates(idx, g)) == Some(ns)
  {
    hide Candidates, SectionsOf, GatewayRefs, FirstOf;
    refs, used, resolved := [], {}, true;
    for i := 0 to |matched|
      invariant refs == MatchedRefs(idx, matched[..i], other)
      invariant resolved <==> forall g :: g in matched[..i] ==> FirstOf(Candidates(idx, g)).Some?
      invariant forall ns :: ns in used <==> exists g :: g in matched[..i] && FirstOf(Candidates(idx, g)) == Some(ns)
    {
      assert matched[..i + 1][..i] == matched[..i] && matched[..i + 1] == matched[..i] + [matched[i]];
      var more, ns := RefsToGateway(idx, matched[i], other);
      if ns.Some? { used := used + {ns.value}; } else { resolved := false; }
      refs := refs + more;
    }
    assert matched[..|matched|] == matched;
  }

  /** parentRefsFromSelectors; the second result is the namespace every parent Gateway shares, when all of them
      were resolved through the index, "" otherwise. */
  method ParentRefsFromSelectors(idx: Index, sels: seq<Tags>, routeNS: string)
    returns (refs: seq<ParentRef>, gatewayNS: string)
    ensures refs == AllRefs(idx, sels, routeNS)
    ensures gatewayNS != "" ==> Shared(idx, sels, gatewayNS)
    ensures forall ns :: Shared(idx, sels, ns) ==> gatewayNS == ns
  {
    hide MatchedRefs, Candidates, GuessedRef, GuessedSection, FirstOf, Resolved, UsesNamespace, GatewaysFor, OtherTags;
    refs := [];
    var allResolved, used := |sels| > 0, {};
    for i := 0 to |sels|
      invariant refs == AllRefs(idx, sels[..i], routeNS)
      invariant allResolved <==> |sels| > 0 && forall j :: 0 <= j < i ==> Resolved(idx, sels[j])
      invariant forall ns :: ns in used <==> exists j :: 0 <= j < i && UsesNamespace(idx, sels[j], ns)
    {
      assert sels[..i + 1][..i] == sels[..i];
      SelectorFacts(idx, sels[i]);
      var tag := TagOr(sels[i], SERVICE);
      if tag == "" {
        refs, allResolved := refs + [ParentRef("(unknown-gateway)", None, GuessedSection(OtherTags(sels[i])))], false;
        continue;
      }
      var matched := GatewaysFor(idx, tag);
      if |matched| == 0 {
        refs, allResolved := refs + [GuessedRef(tag, OtherTags(sels[i]), routeNS)], false;
        continue;
      }
      var more, moreUsed, resolved := RefsToMatched(idx, matched, OtherTags(sels[i]));
      refs, used, allResolved := refs + more, used + moreUsed, allResolved && resolved;
    }
    assert sels[..|sels|] == sels;
    gatewayNS := "";
    SharedIsOnly(idx, sels, used);
    if allResolved && |used| == 1 {
      var ns :| ns in used;
      OnlyOne(used, ns);
      gatewayNS := ns;
    }
  }

  lemma SelectorFacts(idx: Index, sel: Tags)
    ensures var tag := TagOr(sel, SERVICE);
      if tag == "" || GatewaysFor(idx, tag) == [] then !Resolved(idx, sel) && forall ns :: !UsesNamespace(idx, sel, ns)
      else
        && (Resolved(idx, sel) <==> forall g :: g in GatewaysFor(idx, tag) ==> FirstOf(Candidates(idx, g)).Some?)
        && forall ns :: UsesNamespace(idx, sel, ns) <==>
             exists g :: g in GatewaysFor(idx, tag) && FirstOf(Candidates(idx, g)) == Some(ns)
  {
    hide Candidates, FirstOf;
  }

  /** The shared namespace is the only one used, when every selector is resolved. */
  lemma SharedIsOnly(idx: Index, sels: seq<Tags>, used: set<string>)
    requires forall ns :: ns in used <==> exists j :: 0 <= j < |sels| && UsesNamespace(idx, sels[j], ns)
    ensures forall ns :: Shared(idx, sels, ns) <==>
              used == {ns} && forall j :: 0 <= j < |sels| ==> Resolved(idx, sels[j])
  {
    hide Resolved, UsesNamespace;
    forall ns
      ensures Shared(idx, sels, ns) <==> used == {ns} && forall j :: 0 <= j < |sels| ==> Resolved(idx, sels[j])
    {
      if used == {ns} {
        assert ns in used;
        forall i, x | 0 <= i < |sels| && UsesNamespace(idx, sels[i], x) ensures x == ns { assert x in used; }
      }
    }
  }

  lemma OnlyOne(s: set<string>, x: string)
    requires |s| == 1 && x in s
    ensures s == {x}
  {
    assert |s - {x}| == 0;
  }

  // ---- agreement -------------------------------------------------------------------

  lemma {:induction false} SectionsAre(ls: seq<(string, Tags)>, other: Tags)
    ensures forall s :: s in Sections(ls, other) <==>
              exists i :: 0 <= i < |ls| && s == ls[i].0 && HasTags(ls[i].1, other)
  {
    if ls != [] {
      var n := |ls| - 1;
      SectionsAre(ls[..n], other);
      forall s
        ensures s in Sections(ls, other) <==> exists i :: 0 <= i < |ls| && s == ls[i].0 && HasTags(ls[i].1, other)
      {
        if i :| 0 <= i < |ls| && s == ls[i].0 && HasTags(ls[i].1, other) {
          if i < n { assert ls[..n][i] == ls[i]; }
        }
        if s in Sections(ls[..n], other) {
          var i :| 0 <= i < n && s == ls[..n][i].0 && HasTags(ls[..n][i].1, other);
          assert ls[i] == ls[..n][i];
        }
      }
    }
  }

  lemma {:induction false} MatchedRefsAre(idx: Index, matched: seq<IndexedGateway>, other: Tags)
    ensures forall r :: r in MatchedRefs(idx, matched, other) <==>
              exists g :: g in matched && r in GatewayRefs(idx, g, other)
  {
    hide GatewayRefs;
    if matched != [] {
      var n := |matched| - 1;
      MatchedRefsAre(idx, matched[..n], other);
      assert matched == matched[..n] + [matched[n]];
    }
  }

  /** Every parentRef of a selector resolved through the index names the Gateway emitted for a MeshGateway of
      that tag, in its namespace; and every such MeshGateway is named. */
  lemma RefsNameEmittedGateways(idx: Index, docs: seq<Doc>, sel: Tags, routeNS: string)
    requires Represents(idx, docs) && TagOr(sel, SERVICE) != "" && GatewaysFor(idx, TagOr(sel, SERVICE)) != []
    ensures forall r :: r in SelectorRefs(idx, sel, routeNS) <==>
              exists i :: 0 <= i < |docs| && Carries(docs[i], TagOr(sel, SERVICE))
                       && r in GatewayRefs(idx, Indexed(docs[i].gw), OtherTags(sel))
    ensures forall i :: 0 <= i < |docs| && Carries(docs[i], TagOr(sel, SERVICE)) ==>
              RefsAgree(GatewayRefs(idx, Indexed(docs[i].gw), OtherTags(sel)), Emit(idx, docs[i].gw), docs[i].gw,
                  OtherTags(sel))
  {
    hide Candidates, ServiceTags, GatewayRefs, RefsAgree, Emit, Indexed;
    var tag, other := TagOr(sel, SERVICE), OtherTags(sel);
    var matched := GatewaysFor(idx, tag);
    assert RightGateways(matched, docs, tag);
    MatchedRefsAre(idx, matched, other);
    forall r ensures r in SelectorRefs(idx, sel, routeNS) <==>
      exists i :: 0 <= i < |docs| && Carries(docs[i], tag) && r in GatewayRefs(idx, Indexed(docs[i].gw), other)
    {
      if g :| g in matched && r in GatewayRefs(idx, g, other) {
        var i :| 0 <= i < |docs| && Carries(docs[i], tag) && g == Indexed(docs[i].gw);
      }
      if i :| 0 <= i < |docs| && Carries(docs[i], tag) && r in GatewayRefs(idx, Indexed(docs[i].gw), other) {
        assert Indexed(docs[i].gw) in matched;
      }
    }
    forall i | 0 <= i < |docs| && Carries(docs[i], tag)
      ensures RefsAgree(GatewayRefs(idx, Indexed(docs[i].gw), other), Emit(idx, docs[i].gw), docs[i].gw, other)
    {
      GatewayRefsAgree(idx, docs[i].gw, other);
    }
  }

  /** A listener carries all these tags; an empty one counts as missing. */
  predicate CarriesAll(tags: Tags, wanted: Tags) {
    forall k :: k in wanted ==> if k in tags then tags[k] == wanted[k] else wanted[k] == ""
  }

  /** The refs to one MeshGateway: the emitted name and namespace, and as sections exactly the emitted names of
      the listeners that carry every extra tag, or none when there is no such listener or no extra tag. */
  ghost predicate RefsAgree(refs: seq<ParentRef>, e: Emitted, gw: MeshGateway, other: Tags) {
    && refs != [] && |e.listeners| == |gw.listeners|
    && (forall r :: r in refs ==> r.name == e.name && r.namespace == e.namespace)
    && (forall r :: r in refs && r.section.Some? ==>
          exists i :: 0 <= i < |e.listeners| && r.section == Some(e.listeners[i]) &&
              CarriesAll(gw.listeners[i].tags, other))
    && (other != map[] ==> forall i :: 0 <= i < |e.listeners| && CarriesAll(gw.listeners[i].tags, other) ==>
          ParentRef(e.name, e.namespace, Some(e.listeners[i])) in refs)
    && (other == map[] || (forall i :: 0 <= i < |e.listeners| ==> !CarriesAll(gw.listeners[i].tags, other)) ==>
          refs == [ParentRef(e.name, e.namespace, None)])
  }

  lemma TagsCarried(tags: Tags, other: Tags)
    ensures HasTags(tags, other) <==> CarriesAll(tags, other)
  {
  }

  lemma GatewayRefsAgree(idx: Index, gw: MeshGateway, other: Tags)
    ensures RefsAgree(GatewayRefs(idx, Indexed(gw), other), Emit(idx, gw), gw, other)
  {
    hide Candidates, ServiceTags, NameOf, HasTags, Sections, CarriesAll;
    forall tags: Tags ensures HasTags(tags, other) <==> CarriesAll(tags, other) { TagsCarried(tags, other); }
    var g, e, refs := Indexed(gw), Emit(idx, gw), GatewayRefs(idx, Indexed(gw), other);
    SectionsAre(g.listeners, other);
    var sections := SectionsOf(g, other);
    forall r | r in refs && r.section.Some?
      ensures exists i :: 0 <= i < |e.listeners| && r.section == Some(e.listeners[i]) &&
                HasTags(gw.listeners[i].tags, other)
    {
      assert r.section.value in Sections(g.listeners, other);
      var i :| 0 <= i < |g.listeners| && r.section.value == g.listeners[i].0 && HasTags(g.listeners[i].1, other);
      assert e.listeners[i] == g.listeners[i].0;
    }
    if sections != [] { assert sections[0] in Sections(g.listeners, other); }
    if other != map[] {
      forall i | 0 <= i < |e.listeners| && HasTags(gw.listeners[i].tags, other)
        ensures ParentRef(e.name, e.namespace, Some(e.listeners[i])) in refs
      {
        assert g.listeners[i] == (e.listeners[i], gw.listeners[i].tags);
        assert e.listeners[i] in sections;
        var j :| 0 <= j < |sections| && sections[j] == e.listeners[i];
        assert refs[j] == ParentRef(e.name, e.namespace, Some(e.listeners[i]));
      }
    }
  }

  /** The namespace a parentRef resolves in. */
  function Effective(r: ParentRef, routeNS: string): string {
    if r.namespace.Some? then r.namespace.value else routeNS
  }

  // ---- without the index -----------------------------------------------------------

  /** A section is guessed from a port tag, and otherwise from the only tag there is when it holds a hyphen. */
  lemma GuessedSectionMeans(other: Tags, s: string)
    ensures GuessedSection(other) == Some(s) <==>
              || (Has(other, "port", s) && s != "")
              || ("port" !in other && '-' in s && exists k :: other == map[k := s])
  {
    if |other| == 1 {
      OneKey(other);
      var k :| k in other;
      assert other == map[k := other[k]];
    }
    if k :| other == map[k := s] {
      assert |map[k := s]| == 1 && k in other && forall l :: l in other ==> l == k;
    }
  }

  /** A selector whose tag no document carries gets one ref, guessed from the tag: the name and namespace it encodes,
      the latter only when it is not the route's own, or the tag itself; without a service tag a placeholder. */
  lemma UnresolvedRefs(idx: Index, docs: seq<Doc>, sel: Tags, routeNS: string)
    requires Represents(idx, docs) && forall i :: 0 <= i < |docs| ==> !Carries(docs[i], TagOr(sel, SERVICE))
    ensures var tag, refs := TagOr(sel, SERVICE), SelectorRefs(idx, sel, routeNS);
      var id := ServiceTag.ParseGateway(tag);
      && |refs| == 1 && refs[0].section == GuessedSection(OtherTags(sel))
      && (tag == "" ==> refs[0].name == "(unknown-gateway)" && refs[0].namespace.None?)
      && (tag != "" ==>
            && refs[0].name == (if id.name != "" then id.name else tag)
            && Effective(refs[0], routeNS) == (if id.namespace != "" then id.namespace else routeNS)
            && refs[0].namespace != Some(routeNS))
  {
    hide ServiceTags, GuessedSection, Indexed;
    var tag := TagOr(sel, SERVICE);
    assert RightGateways(GatewaysFor(idx, tag), docs, tag);
    SomeElement(GatewaysFor(idx, tag));
  }

  lemma SomeElement(list: seq<IndexedGateway>)
    ensures list != [] ==> exists g :: g in list
  {
    if list != [] { assert list[0] in list; }
  }

  /** The parentRefs of a route are those of its selectors, in order. */
  lemma {:induction false} AllRefsAre(idx: Index, sels: seq<Tags>, routeNS: string, r: ParentRef)
    ensures r in AllRefs(idx, sels, routeNS) <==>
              exists i :: 0 <= i < |sels| && r in SelectorRefs(idx, sels[i], routeNS)
    ensures forall n :: 0 <= n <= |sels| ==> AllRefs(idx, sels[..n], routeNS) <= AllRefs(idx, sels, routeNS)
  {
    hide SelectorRefs;
    if sels != [] {
      var m := |sels| - 1;
      AllRefsAre(idx, sels[..m], routeNS, r);
      if i :| 0 <= i < m && r in SelectorRefs(idx, sels[..m][i], routeNS) { assert sels[i] == sels[..m][i]; }
      if i :| 0 <= i < |sels| && r in SelectorRefs(idx, sels[i], routeNS) {
        if i < m { assert sels[..m][i] == sels[i]; }
      }
      forall n | 0 <= n <= |sels| ensures AllRefs(idx, sels[..n], routeNS) <= AllRefs(idx, sels, routeNS) {
        if n <= m { assert sels[..m][..n] == sels[..n]; } else { assert sels[..n] == sels; }
      }
    }
  }

  // ---- placing the route -------------------------------------------------------------

  function Place(refs: seq<ParentRef>, routeNS: string): seq<ParentRef> {
    seq(|refs|, i requires 0 <= i < |refs| =>
          if routeNS != "" && refs[i].namespace == Some(routeNS) then refs[i].(namespace := None) else refs[i])
  }

  /** placeRouteWithParentGateway. */
  method PlaceRoute(refs: seq<ParentRef>, routeNS: string, gatewayNS: string)
    returns (placedNS: string, out: seq<ParentRef>)
    ensures placedNS == if routeNS == "" then gatewayNS else routeNS
    ensures out == Place(refs, placedNS)
  {
    placedNS := routeNS;
    if placedNS == "" && gatewayNS != "" { placedNS := gatewayNS; }
    out := refs;
    if placedNS != "" {
      for i := 0 to |refs|
        invariant |out| == |refs| && forall j :: i <= j < |refs| ==> out[j] == refs[j]
        invariant forall j :: 0 <= j < i ==> out[j] == Place(refs, placedNS)[j]
      {
        if out[i].namespace == Some(placedNS) { out := out[i := out[i].(namespace := None)]; }
      }
    }
    assert out == Place(refs, placedNS);
  }

  lemma ResolvedRefHasNamespace(idx: Index, sel: Tags, routeNS: string, ns: string, r: ParentRef)
    requires Resolved(idx, sel) && forall x :: UsesNamespace(idx, sel, x) ==> x == ns
    requires r in SelectorRefs(idx, sel, routeNS)
    ensures r.namespace == Some(ns)
  {
    hide Candidates, GuessedRef, SectionsOf, FirstOf, MatchedRefs;
    var matched := GatewaysFor(idx, TagOr(sel, SERVICE));
    MatchedRefsAre(idx, matched, OtherTags(sel));
    var g :| g in matched && r in GatewayRefs(idx, g, OtherTags(sel));
    assert UsesNamespace(idx, sel, FirstOf(Candidates(idx, g)).value);
  }

  lemma {:induction false} ResolvedRefsHaveNamespace(idx: Index, sels: seq<Tags>, routeNS: string, ns: string)
    requires forall i :: 0 <= i < |sels| ==>
               Resolved(idx, sels[i]) && forall x :: UsesNamespace(idx, sels[i], x) ==> x == ns
    ensures forall r :: r in AllRefs(idx, sels, routeNS) ==> r.namespace == Some(ns)
  {
    hide SelectorRefs, Resolved, UsesNamespace;
    if sels != [] {
      var n := |sels| - 1;
      ResolvedRefsHaveNamespace(idx, sels[..n], routeNS, ns);
      forall r | r in SelectorRefs(idx, sels[n], routeNS) ensures r.namespace == Some(ns) {
        ResolvedRefHasNamespace(idx, sels[n], routeNS, ns, r);
      }
    }
  }

  /** Placing the route drops the redundant namespaces, all of them, and leaves every parentRef resolving where it
      did. */
  lemma PlacementKeepsParents(idx: Index, sels: seq<Tags>, routeNS: string, gatewayNS: string)
    requires gatewayNS != "" ==> Shared(idx, sels, gatewayNS)
    ensures var refs := AllRefs(idx, sels, routeNS);
            var placedNS := if routeNS == "" then gatewayNS else routeNS;
            var out := Place(refs, placedNS);
      && |out| == |refs|
      && forall i :: 0 <= i < |refs| ==>
           && out[i].name == refs[i].name && out[i].section == refs[i].section
           && Effective(out[i], placedNS) == Effective(refs[i], routeNS)
           && (placedNS != "" ==> out[i].namespace != Some(placedNS))
  {
    hide Candidates, SelectorRefs, Resolved, UsesNamespace;
    var refs := AllRefs(idx, sels, routeNS);
    if routeNS == "" && gatewayNS != "" {
      ResolvedRefsHaveNamespace(idx, sels, routeNS, gatewayNS);
      assert forall i :: 0 <= i < |refs| ==> refs[i] in refs;
    }
  }
}
