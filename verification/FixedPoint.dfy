/** Re-running the migrator on its own output (detect.go, transformScenarioSubset, rulesapi.go):
    every pass shrinks what is left to convert, and for DNS service names two passes finish. */
module FixedPoint {
  import opened Text
  import opened TagKeys
  import opened Targeting
  import opened RefMeaning
  import ServiceTag

  type Conf = string

  /** An element of to[] or from[]; Opaque is one that is not an object, which every loop skips. */
  datatype Entry = Opaque | Entry(ref: Option<TargetRef>, default: Option<Conf>)

  /** A Mesh* policy. A missing list and an empty one read the same. */
  datatype Doc = Doc(
    kind: string, name: string, namespace: string, displayName: Option<string>,
    ref: Option<TargetRef>, to: seq<Entry>, from: seq<Entry>, rules: seq<Option<Conf>>)

  predicate RulesKind(kind: string) {
    kind in {"MeshAccessLog", "MeshCircuitBreaker", "MeshRateLimit", "MeshTimeout", "MeshTLS"}
  }

  // ---- detection -------------------------------------------------------------

  datatype Scenario = Rules | Subset | Passthrough

  predicate HasServiceTag(ref: Option<TargetRef>) {
    ref.Some? && (SERVICE in ref.value.tags || SERVICE_NAME in ref.value.tags)
  }

  predicate OldName(ref: Option<TargetRef>) {
    ref.Some? && OldServiceName(ref.value)
  }

  predicate EntryTagged(e: Entry) {
    e.Entry? && HasServiceTag(e.ref)
  }

  predicate EntryNeedsSubset(e: Entry) {
    e.Entry? && (HasServiceTag(e.ref) || OldName(e.ref))
  }

  /** DetectScenario, for the kinds that reach its targetRef checks. */
  function Detect(d: Doc): Scenario {
    if && RulesKind(d.kind) && d.from != [] && !HasServiceTag(d.ref)
       && forall i :: 0 <= i < |d.from| ==> !EntryTagged(d.from[i])
    then Rules
    else if || HasServiceTag(d.ref) || (d.ref.Some? && d.ref.value.kind == "MeshSubset") || OldName(d.ref)
            || (exists i :: 0 <= i < |d.to| && EntryNeedsSubset(d.to[i]))
            || (exists i :: 0 <= i < |d.from| && EntryNeedsSubset(d.from[i]))
    then Subset
    else Passthrough
  }

  // ---- from[] to rules[], and the split --------------------------------------

  function RulesFrom(from: seq<Entry>): seq<Option<Conf>> {
    if from == [] then []
    else if from[0].Opaque? then RulesFrom(from[1..])
    else [from[0].default] + RulesFrom(from[1..])
  }

  function ToRules(d: Doc): Doc {
    if d.from == [] then d
    else
      var rules := RulesFrom(d.from);
      d.(from := [], rules := if rules == [] then d.rules else rules)
  }

  lemma RulesFromAppend(from: seq<Entry>, e: Entry)
    ensures RulesFrom(from + [e]) == RulesFrom(from) + (if e.Opaque? then [] else [e.default])
  {
    if from == [] {
      assert [e] == [e] + [] && [e][1..] == [];
    } else {
      RulesFromAppend(from[1..], e);
      assert (from + [e])[1..] == from[1..] + [e];
    }
  }

  /** applyFromToRulesMap. */
  method ApplyFromToRules(d: Doc) returns (out: Doc, modified: bool)
    ensures out == ToRules(d) && modified == (d.from != [])
  {
    if |d.from| == 0 { return d, false; }
    var rules := [];
    for i := 0 to |d.from|
      invariant rules == RulesFrom(d.from[..i])
    {
      RulesFromAppend(d.from[..i], d.from[i]);
      assert d.from[..i + 1] == d.from[..i] + [d.from[i]];
      if d.from[i].Opaque? { continue; }
      rules := rules + [d.from[i].default];
    }
    assert d.from[..|d.from|] == d.from;
    out := d.(from := []);
    if |rules| > 0 { out := out.(rules := rules); }
    modified := true;
  }

  /** splitRulesAndToMap: Kuma refuses rules[] next to to[], so the to[] half becomes "<name>-outbound". */
  function Split(d: Doc): seq<Doc> {
    if d.rules == [] || d.to == [] then [d]
    else [d.(to := []), d.(rules := [], from := [], name := d.name + "-outbound", displayName := None)]
  }

  // ---- the subset pass -------------------------------------------------------

  /** For each ref, by position, which service tag the map iteration visits last. */
  type Order = int -> bool

  const TOP := -1

  function NameLast(o: Order, i: int): bool {
    o(i)
  }

  function FromPosition(i: nat): int {
    -2 - i
  }

  function ConvertTop(ref: TargetRef, namespace: string, v3: bool, nameLast: bool): Converted {
    ConvertRefFor(ref, namespace, true, v3, nameLast)
  }

  function ConvertTo(e: Entry, namespace: string, v3: bool, nameLast: bool): Option<Entry> {
    if e.Opaque? || e.ref.None? then Some(e)
    else
      var r := ConvertRefFor(e.ref.value, namespace, false, v3, nameLast);
      if r.Err? then None else Some(e.(ref := Some(r.value.0)))
  }

  /** A from[] ref without an equivalent is left as it is: it is dropped or rejected later. */
  function ConvertFrom(e: Entry, kind: string, namespace: string, v3: bool, nameLast: bool): Entry {
    if e.Opaque? || e.ref.None? then e
    else
      var r := FromRef(e.ref.value, kind, namespace, v3, nameLast);
      if r.Err? then e else e.(ref := Some(r.value.0))
  }

  predicate RefsExpressible(d: Doc, v3: bool, o: Order) {
    && (d.ref.Some? ==> ConvertTop(d.ref.value, d.namespace, v3, NameLast(o, TOP)).Ok?)
    && forall i :: 0 <= i < |d.to| ==> ConvertTo(d.to[i], d.namespace, v3, NameLast(o, i)).Some?
  }

  function ConvertRefs(d: Doc, v3: bool, o: Order): Doc
    requires RefsExpressible(d, v3, o)
  {
    d.(ref := if d.ref.None? then None else Some(ConvertTop(d.ref.value, d.namespace, v3, NameLast(o, TOP)).value.0),
       to := seq(|d.to|, i requires 0 <= i < |d.to| => ConvertTo(d.to[i], d.namespace, v3, NameLast(o, i)).value),
       from := seq(|d.from|, i requires 0 <= i < |d.from| =>
                     ConvertFrom(d.from[i], d.kind, d.namespace, v3, NameLast(o, FromPosition(i)))))
  }

  function SubsetPass(d: Doc, v3: bool, o: Order): Option<seq<Doc>> {
    if !RefsExpressible(d, v3, o) then None
    else
      var c := ConvertRefs(d, v3, o);
      Some(if RulesKind(d.kind) then Split(ToRules(c)) else [c])
  }

  /** The to[] loop: None is an error, some ref having no equivalent. */
  method ConvertToEntries(d: Doc, v3: bool) returns (r: Option<seq<Entry>>)
    ensures r.None? <==> exists j :: 0 <= j < |d.to| && ConvertTo(d.to[j], d.namespace, v3, true).None?
    ensures r.Some? ==> |r.value| == |d.to| && forall j :: 0 <= j < |d.to| ==>
              || Some(r.value[j]) == ConvertTo(d.to[j], d.namespace, v3, false)
              || Some(r.value[j]) == ConvertTo(d.to[j], d.namespace, v3, true)
  {
    hide ConvertRefFor;
    var to := [];
    for i := 0 to |d.to|
      invariant |to| == i
      invariant forall j :: 0 <= j < i ==>
        && ConvertTo(d.to[j], d.namespace, v3, true).Some?
        && (|| Some(to[j]) == ConvertTo(d.to[j], d.namespace, v3, false)
            || Some(to[j]) == ConvertTo(d.to[j], d.namespace, v3, true))
    {
      var e := d.to[i];
      if e.Entry? && e.ref.Some? {
        EitherOrderErrs(e.ref.value, d.namespace, false, v3);
        var one := ConvertTargetRefForTarget(e.ref.value, d.namespace, false, v3);
        if one.Err? {
          assert ConvertTo(d.to[i], d.namespace, v3, true).None?;
          return None;
        }
        e := e.(ref := Some(one.value.0));
      }
      to := to + [e];
    }
    return Some(to);
  }

  lemma EitherOrderErrs(ref: TargetRef, namespace: string, topLevel: bool, v3: bool)
    ensures ConvertRefFor(ref, namespace, topLevel, v3, false).Err? <==>
              ConvertRefFor(ref, namespace, topLevel, v3, true).Err?
  {
    hide ConvertRefFor;
    if ConvertRefFor(ref, namespace, topLevel, v3, false).Err? {
      ErrorEitherWay(ref, namespace, topLevel, v3, false, true);
    } else if ConvertRefFor(ref, namespace, topLevel, v3, true).Err? {
      ErrorEitherWay(ref, namespace, topLevel, v3, true, false);
    }
  }

  /** The from[] loop. */
  method ConvertFromEntries(d: Doc, v3: bool) returns (from: seq<Entry>)
    ensures |from| == |d.from|
    ensures forall j :: 0 <= j < |from| ==>
              || from[j] == ConvertFrom(d.from[j], d.kind, d.namespace, v3, false)
              || from[j] == ConvertFrom(d.from[j], d.kind, d.namespace, v3, true)
  {
    hide FromRef;
    from := [];
    for i := 0 to |d.from|
      invariant |from| == i
      invariant forall j :: 0 <= j < i ==>
        || from[j] == ConvertFrom(d.from[j], d.kind, d.namespace, v3, false)
        || from[j] == ConvertFrom(d.from[j], d.kind, d.namespace, v3, true)
    {
      var e := d.from[i];
      if e.Entry? && e.ref.Some? {
        var one := FromRefForTarget(e.ref.value, d.kind, d.namespace, v3);
        if one.Ok? { e := e.(ref := Some(one.value.0)); }
      }
      from := from + [e];
    }
  }

  /** The tag orders that explain what the loops returned. */
  function Explaining(d: Doc, v3: bool, top: bool, to: seq<Entry>, from: seq<Entry>): Order
    requires |to| == |d.to| && |from| == |d.from|
  {
    (i: int) =>
      if i == TOP then top
      else if 0 <= i < |to| then Some(to[i]) == ConvertTo(d.to[i], d.namespace, v3, true)
      else if 0 <= -2 - i < |from| then from[-2 - i] == ConvertFrom(d.from[-2 - i], d.kind, d.namespace, v3, true)
      else false
  }

  /** transformScenarioSubset: None is an error, some top-level or to[] ref having no equivalent. */
  method TransformSubset(d: Doc, v3: bool) returns (r: Option<seq<Doc>>)
    ensures exists o: Order :: r == SubsetPass(d, v3, o)
  {
    hide ConvertRefFor, ConvertTo, ConvertFrom, Split, ToRules;
    ghost var topLast := false;
    var out := d;
    if d.ref.Some? {
      var top := ConvertTargetRefForTarget(d.ref.value, d.namespace, true, v3);
      topLast := top == ConvertRefFor(d.ref.value, d.namespace, true, v3, true);
      if top.Err? {
        assert None == SubsetPass(d, v3, (i: int) => topLast);
        return None;
      }
      out := out.(ref := Some(top.value.0));
    }
    var to := ConvertToEntries(d, v3);
    if to.None? {
      ghost var j :| 0 <= j < |d.to| && ConvertTo(d.to[j], d.namespace, v3, true).None?;
      ghost var o: Order := (i: int) => true;
      assert NameLast(o, j);
      assert None == SubsetPass(d, v3, o);
      return None;
    }
    var from := ConvertFromEntries(d, v3);
    out := out.(to := to.value, from := from);
    ghost var o := Explaining(d, v3, topLast, to.value, from);
    Explained(d, v3, topLast, to.value, from);
    assert out == ConvertRefs(d, v3, o);
    var docs := FinishSubset(out);
    assert Some(docs) == SubsetPass(d, v3, o);
    return Some(docs);
  }

  lemma Explained(d: Doc, v3: bool, top: bool, to: seq<Entry>, from: seq<Entry>)
    requires |to| == |d.to| && |from| == |d.from|
    requires forall j :: 0 <= j < |d.to| ==>
               || Some(to[j]) == ConvertTo(d.to[j], d.namespace, v3, false)
               || Some(to[j]) == ConvertTo(d.to[j], d.namespace, v3, true)
    requires forall j :: 0 <= j < |from| ==>
               || from[j] == ConvertFrom(d.from[j], d.kind, d.namespace, v3, false)
               || from[j] == ConvertFrom(d.from[j], d.kind, d.namespace, v3, true)
    ensures var o := Explaining(d, v3, top, to, from);
      && NameLast(o, TOP) == top
      && (forall j :: 0 <= j < |to| ==> ConvertTo(d.to[j], d.namespace, v3, NameLast(o, j)) == Some(to[j]))
      && forall j :: 0 <= j < |from| ==>
           from[j] == ConvertFrom(d.from[j], d.kind, d.namespace, v3, NameLast(o, FromPosition(j)))
  {
    hide ConvertTo, ConvertFrom;
    forall j | 0 <= j < |from|
      ensures from[j] == ConvertFrom(d.from[j], d.kind, d.namespace, v3,
                NameLast(Explaining(d, v3, top, to, from), FromPosition(j)))
    {
      assert -2 - FromPosition(j) == j;
    }
  }

  /** The rules-API part of transformScenarioSubset. */
  method FinishSubset(d: Doc) returns (docs: seq<Doc>)
    ensures docs == if RulesKind(d.kind) then Split(ToRules(d)) else [d]
  {
    var out := d;
    if RulesKind(d.kind) {
      if |d.from| > 0 {
        var rewritten, _ := ApplyFromToRules(out);
        out := rewritten;
      }
      return Split(out);
    }
    return [out];
  }

  function Pass(d: Doc, v3: bool, o: Order): Option<seq<Doc>> {
    match Detect(d)
    case Passthrough => Some([d])
    case Rules => Some(Split(ToRules(d)))
    case Subset => SubsetPass(d, v3, o)
  }

  /** No ref of 3.0 can stand for this one. */
  ghost predicate NoEquivalent(ref: TargetRef, topLevel: bool) {
    && ref.kind in {"MeshSubset", "MeshServiceSubset"} && !AsksService(ref.tags)
    && !(topLevel && (ref.tags == map[] || AsksSomething(ref.tags)))
  }

  ghost predicate EntryWithoutEquivalent(e: Entry) {
    e.Entry? && e.ref.Some? && NoEquivalent(e.ref.value, false)
  }

  /** A subset pass fails exactly on 3.0, for a top-level or to[] ref without an equivalent. */
  lemma SubsetPassFails(d: Doc, v3: bool, o: Order)
    ensures SubsetPass(d, v3, o).None? <==>
              && v3
              && (|| (d.ref.Some? && NoEquivalent(d.ref.value, true))
                  || exists i :: 0 <= i < |d.to| && EntryWithoutEquivalent(d.to[i]))
  {
    hide ConvertRefFor, NoEquivalent, ToRules, Split;
    if d.ref.Some? { NoEquivalentFails(d.ref.value, d.namespace, true, v3, NameLast(o, TOP)); }
    forall i | 0 <= i < |d.to| && d.to[i].Entry? && d.to[i].ref.Some?
      ensures ConvertTo(d.to[i], d.namespace, v3, NameLast(o, i)).None? <==>
                v3 && EntryWithoutEquivalent(d.to[i])
    {
      NoEquivalentFails(d.to[i].ref.value, d.namespace, false, v3, NameLast(o, i));
    }
  }

  lemma NoEquivalentFails(ref: TargetRef, namespace: string, topLevel: bool, v3: bool, nameLast: bool)
    ensures ConvertRefFor(ref, namespace, topLevel, v3, nameLast).Err? <==> v3 && NoEquivalent(ref, topLevel)
  {
    hide ConvertRefFor, AsksSomething;
    ConversionFails(ref, namespace, topLevel, v3, nameLast);
  }

  // ---- what is detected --------------------------------------------------------

  /** A ref by a service tag or by a generated name. */
  predicate OldRef(ref: TargetRef) {
    AsksService(ref.tags) || Generated(ref)
  }

  predicate OldEntry(e: Entry) {
    e.Entry? && e.ref.Some? && OldRef(e.ref.value)
  }

  /** A document passes through exactly when nothing of it is old: no such ref, no top-level subset, and for the rules
      kinds no from[]. */
  lemma PassthroughMeans(d: Doc)
    ensures Detect(d) == Passthrough <==>
              && !(d.ref.Some? && (OldRef(d.ref.value) || d.ref.value.kind == "MeshSubset"))
              && (forall i :: 0 <= i < |d.to| ==> !OldEntry(d.to[i]))
              && (forall i :: 0 <= i < |d.from| ==> !OldEntry(d.from[i]))
              && !(d.from != [] &&
                    d.kind in {"MeshAccessLog", "MeshCircuitBreaker", "MeshRateLimit", "MeshTimeout", "MeshTLS"})
  {
    hide ServiceTag.Parse;
    forall e: Entry ensures OldEntry(e) <==> EntryNeedsSubset(e) {}
    forall e: Entry ensures EntryTagged(e) ==> EntryNeedsSubset(e) {}
  }

  /** The rules of from[] are its bodies, in order; elements that are no objects have none. */
  lemma {:induction false} RulesAreBodies(from: seq<Entry>) returns (at: seq<nat>)
    ensures Positions(at, |from|) && |RulesFrom(from)| == |at|
    ensures forall i :: 0 <= i < |from| ==> (i in at <==> from[i].Entry?)
    ensures forall j :: 0 <= j < |at| ==> from[at[j]].Entry? && RulesFrom(from)[j] == from[at[j]].default
    decreases |from|
  {
    at := [];
    if from != [] {
      var n := |from| - 1;
      assert from == from[..n] + [from[n]];
      RulesFromAppend(from[..n], from[n]);
      at := RulesAreBodies(from[..n]);
      forall i | 0 <= i < n ensures i in at <==> from[i].Entry? { assert from[i] == from[..n][i]; }
      if from[n].Entry? { at := at + [n]; }
    }
  }

  // ---- what a pass keeps -----------------------------------------------------

  function Bodies(es: seq<Entry>): seq<Option<Conf>> {
    seq(|es|, i requires 0 <= i < |es| => if es[i].Opaque? then None else es[i].default)
  }

  /** No output holds rules[] next to to[], every body survives in order in exactly one output, and
      the rules[] that were there before survive exactly when from[] brings none. */
  lemma BodiesSurvive(d: Doc, v3: bool, o: Order)
    requires RulesKind(d.kind) && Detect(d) != Passthrough && Pass(d, v3, o).Some?
    ensures var out := Pass(d, v3, o).value;
      && 1 <= |out| <= 2
      && (forall i :: 0 <= i < |out| ==> out[i].from == [] && (out[i].rules == [] || out[i].to == []))
      && out[0].rules == (if RulesFrom(d.from) == [] then d.rules else RulesFrom(d.from))
      && Bodies(out[|out| - 1].to) == Bodies(d.to)
      && (|out| == 2 ==> out[0].to == [] && out[1].rules == [] && out[1].name == d.name + "-outbound")
      && out[0].name == d.name && out[0].ref == out[|out| - 1].ref
      && forall i :: 0 <= i < |out| ==> out[i].kind == d.kind && out[i].namespace == d.namespace
  {
    hide ConvertRefFor, FromRef;
    if Detect(d) == Subset {
      var c := ConvertRefs(d, v3, o);
      assert Bodies(c.to) == Bodies(d.to);
      SameRules(d.from, c.from);
    }
  }

  lemma {:induction false} SameRules(a: seq<Entry>, b: seq<Entry>)
    requires |a| == |b|
    requires forall i :: 0 <= i < |a| ==> a[i].Opaque? == b[i].Opaque? && (a[i].Entry? ==> a[i].default == b[i].default)
    ensures RulesFrom(a) == RulesFrom(b)
  {
    if a != [] { SameRules(a[1..], b[1..]); }
  }

  /** Rules detection does not look at to[]: after that pass a second one is needed exactly when the top-level ref
      or some to[] ref still has a form the subset pass converts. */
  lemma RulesPassLeavesRefs(d: Doc, v3: bool, o: Order)
    requires Detect(d) == Rules
    ensures var out := Pass(d, v3, o).value;
      (exists j :: 0 <= j < |out| && Detect(out[j]) == Subset) <==>
        || (d.ref.Some? && (d.ref.value.kind == "MeshSubset" || OldName(d.ref)))
        || exists i :: 0 <= i < |d.to| && EntryNeedsSubset(d.to[i])
  {
    hide OldName, HasServiceTag;
    var out := Split(ToRules(d));
    assert Pass(d, v3, o) == Some(out);
    assert forall j :: 0 <= j < |out| ==>
        out[j].ref == d.ref && out[j].from == [] && (out[j].to == d.to || out[j].to == []);
    assert |out| == 1 || out[1].to == d.to;
    assert |out| == 1 ==> out[0].to == d.to;
    if i :| 0 <= i < |d.to| && EntryNeedsSubset(d.to[i]) {
      assert EntryNeedsSubset(out[|out| - 1].to[i]);
      assert Detect(out[|out| - 1]) == Subset;
    }
    if d.ref.Some? && (d.ref.value.kind == "MeshSubset" || OldName(d.ref)) { assert Detect(out[0]) == Subset; }
    if j :| 0 <= j < |out| && Detect(out[j]) == Subset {
      WhySubset(out[j]);
      assert out[j].ref == d.ref && out[j].from == [];
      if i :| 0 <= i < |out[j].to| && EntryNeedsSubset(out[j].to[i]) {
        assert out[j].to == d.to;
        assert EntryNeedsSubset(d.to[i]);
      }
    }
  }

  lemma WhySubset(d: Doc)
    requires Detect(d) == Subset && d.from == []
    ensures || HasServiceTag(d.ref) || (d.ref.Some? && (d.ref.value.kind == "MeshSubset" || OldName(d.ref)))
            || exists i :: 0 <= i < |d.to| && EntryNeedsSubset(d.to[i])
  {
  }

  // ---- what the refs select ----------------------------------------------------

  /** A from[] ref: 2.x permissions and faults keep a subset, and read a generated name as the service tag it is; a
      ref without an equivalent stays for another step to reject. */
  ghost predicate FromStandsFor(ref: TargetRef, kind: string, namespace: string, v3: bool, out: TargetRef) {
    if !v3 && kind in {"MeshTrafficPermission", "MeshFaultInjection"} && (ref.kind == "MeshSubset" || Generated(ref))
    then
      if ref.kind == "MeshSubset" then out == ref
      else out.kind == "MeshSubset" && forall p :: Selects(out, p) <==> Has(p.tags, SERVICE, ref.name.value)
    else if v3 && ref.kind in {"MeshSubset", "MeshServiceSubset"} && !AsksService(ref.tags) then out == ref
    else StandsFor(ref, namespace, false, v3, out)
  }

  lemma FromConvertedStandsFor(ref: TargetRef, kind: string, namespace: string, v3: bool, nameLast: bool)
    ensures var r := FromRef(ref, kind, namespace, v3, nameLast);
      FromStandsFor(ref, kind, namespace, v3, if r.Ok? then r.value.0 else ref)
  {
    hide ConvertRefFor, StandsFor, ServiceTag.Parse;
    ConversionFails(ref, namespace, false, v3, nameLast);
    if ConvertRefFor(ref, namespace, false, v3, nameLast).Ok? {
      ConvertedStandsFor(ref, namespace, false, v3, nameLast);
    }
    if KeepsSubsets(kind, v3) && ref.kind != "MeshSubset" && Generated(ref) { GeneratedIsTag(ref.name.value); }
  }

  lemma GeneratedIsTag(name: string)
    requires ServiceTag.Encoded(name)
    ensures var out := FromSubset(map[SERVICE := name]);
      out.kind == "MeshSubset" && forall p :: Selects(out, p) <==> Has(p.tags, SERVICE, name)
  {
    assert name != "*" by { assert ServiceTag.Parse("*").namespace == ""; }
    hide ServiceTag.Parse;
    assert SERVICE in WithoutServiceStar(map[SERVICE := name]);
  }

  ghost predicate EntryStandsFor(e: Entry, out: Entry, holds: (TargetRef, TargetRef) -> bool) {
    if e.Opaque? || e.ref.None? then out == e
    else out.Entry? && out.default == e.default && out.ref.Some? && holds(e.ref.value, out.ref.value)
  }

  ghost predicate EntriesStandFor(es: seq<Entry>, out: seq<Entry>, holds: (TargetRef, TargetRef) -> bool) {
    |out| == |es| && forall i :: 0 <= i < |es| ==> EntryStandsFor(es[i], out[i], holds)
  }

  /** Every ref a subset pass leaves stands for the one it was made from, in the policy's own namespace: at the top
      level, in to[], and, for kinds that keep it, in from[]. */
  lemma SubsetPassStandsFor(d: Doc, v3: bool, o: Order, out: Doc)
    requires SubsetPass(d, v3, o).Some? && out in SubsetPass(d, v3, o).value
    ensures out.namespace == d.namespace && out.kind == d.kind
    ensures if d.ref.None? then out.ref.None?
            else out.ref.Some? && StandsFor(d.ref.value, d.namespace, true, v3, out.ref.value)
    ensures out.to == [] || EntriesStandFor(d.to, out.to, (ref, now) => StandsFor(ref, d.namespace, false, v3, now))
    ensures exists other :: other in SubsetPass(d, v3, o).value &&
              EntriesStandFor(d.to, other.to, (ref, now) => StandsFor(ref, d.namespace, false, v3, now))
    ensures !RulesKind(d.kind) ==>
              EntriesStandFor(d.from, out.from, (ref, now) => FromStandsFor(ref, d.kind, d.namespace, v3, now))
  {
    hide ConvertRefFor, FromRef, StandsFor, FromStandsFor;
    var c := ConvertRefs(d, v3, o);
    if d.ref.Some? { ConvertedStandsFor(d.ref.value, d.namespace, true, v3, NameLast(o, TOP)); }
    var holds := (ref, now) => StandsFor(ref, d.namespace, false, v3, now);
    forall i | 0 <= i < |d.to| ensures EntryStandsFor(d.to[i], c.to[i], holds) {
      assert ConvertTo(d.to[i], d.namespace, v3, NameLast(o, i)) == Some(c.to[i]);
      if d.to[i].Entry? && d.to[i].ref.Some? {
        ConvertedStandsFor(d.to[i].ref.value, d.namespace, false, v3, NameLast(o, i));
      }
    }
    forall i | 0 <= i < |d.from|
      ensures EntryStandsFor(d.from[i], c.from[i], (ref, now) => FromStandsFor(ref, d.kind, d.namespace, v3, now))
    {
      if d.from[i].Entry? && d.from[i].ref.Some? {
        FromConvertedStandsFor(d.from[i].ref.value, d.kind, d.namespace, v3, NameLast(o, FromPosition(i)));
      }
    }
    var docs := SubsetPass(d, v3, o).value;
    assert docs[|docs| - 1] in docs && docs[|docs| - 1].to == c.to;
  }

  // ---- fixed point -----------------------------------------------------------

  /** Every service this ref can be converted to has an underscore-free name, as a DNS label does. */
  predicate DnsNames(ref: TargetRef) {
    && (ref.name.Some? && ServiceTag.Encoded(ref.name.value) ==> '_' !in ServiceTag.Parse(ref.name.value).name)
    && (SERVICE in ref.tags ==> '_' !in ServiceTag.Parse(ref.tags[SERVICE]).name)
    && (SERVICE_NAME in ref.tags ==> '_' !in ref.tags[SERVICE_NAME])
  }

  lemma PlainNotEncoded(name: string)
    requires '_' !in name
    ensures !ServiceTag.Encoded(name)
  {
    if LastIndex(name, ServiceTag.SVC) != -1 {
      MarkerHasUnderscore(name, LastIndex(name, ServiceTag.SVC));
    }
  }

  lemma MarkerHasUnderscore(name: string, i: int)
    requires OccursAt(name, ServiceTag.SVC, i)
    ensures '_' in name
  {
    assert name[i] == name[i..i + 5][0] == '_';
  }

  predicate Stable(ref: TargetRef, namespace: string, topLevel: bool, v3: bool, nameLast: bool) {
    var r := ConvertRefFor(ref, namespace, topLevel, v3, nameLast);
    r.Ok? && r.value.0 == ref
  }

  lemma SettledRefIsStable(ref: TargetRef, namespace: string, topLevel: bool, v3: bool, nameLast: bool)
    requires !SubsetKind(ref.kind) && !OldServiceName(ref)
    ensures Stable(ref, namespace, topLevel, v3, nameLast)
  {
  }

  /** The service a ref decodes to, when it becomes a 2.x MeshService ref by name. */
  function ByName(ref: TargetRef, namespace: string, topLevel: bool, v3: bool, nameLast: bool)
    : Option<ServiceTag.Identity>
  {
    var key := DecidingKey(ref.tags, nameLast);
    if v3 || topLevel then None
    else if SubsetKind(ref.kind) then
      if key.None? || ref.tags[key.value] == "*" || OtherTags(ref.tags) != map[] || TagOr(ref.tags, ZONE) != "" then
        None
      else InPolicyNamespace(Resolve(key.value, ref.tags[key.value], TagOr(ref.tags, NAMESPACE), namespace), namespace)
    else if OldServiceName(ref) then InPolicyNamespace(ServiceTag.Parse(ref.name.value), namespace)
    else None
  }

  function InPolicyNamespace(id: ServiceTag.Identity, namespace: string): Option<ServiceTag.Identity> {
    if namespace == "" || namespace == id.namespace then Some(id) else None
  }

  /** The name the converted ref carries is an encoded name again. */
  predicate Nested(ref: TargetRef, namespace: string, topLevel: bool, v3: bool, nameLast: bool) {
    var id := ByName(ref, namespace, topLevel, v3, nameLast);
    id.Some? && ServiceTag.Encoded(id.value.name)
  }

  lemma DnsNeverNested(ref: TargetRef, namespace: string, topLevel: bool, v3: bool, nameLast: bool)
    requires v3 || DnsNames(ref)
    ensures !Nested(ref, namespace, topLevel, v3, nameLast)
  {
    hide ServiceTag.Parse, ServiceTag.Encoded;
    var id := ByName(ref, namespace, topLevel, v3, nameLast);
    if id.Some? { PlainNotEncoded(id.value.name); }
  }

  lemma NamedRef(ref: TargetRef, namespace: string, topLevel: bool, v3: bool, nameLast: bool)
    requires ByName(ref, namespace, topLevel, v3, nameLast).Some?
    ensures var r := ConvertRefFor(ref, namespace, topLevel, v3, nameLast);
            var id := ByName(ref, namespace, topLevel, v3, nameLast).value;
            && r.Ok? && r.value.0.kind == "MeshService"
            && r.value.0.name ==
                 (if OldServiceName(ref) && !SubsetKind(ref.kind) then Some(id.name) else NonEmpty(id.name))
  {
    hide ServiceTag.Parse, Labels, LabelWarnings, ReservedKey;
  }

  /** The result of a conversion is not of a convertible form again, unless it is a tag selector without a service that
      2.x keeps, or carries such a name. */
  lemma ConvertSettles(ref: TargetRef, namespace: string, topLevel: bool, v3: bool, nameLast: bool)
    requires ConvertRefFor(ref, namespace, topLevel, v3, nameLast).Ok?
    requires !Nested(ref, namespace, topLevel, v3, nameLast)
    ensures var out := ConvertRefFor(ref, namespace, topLevel, v3, nameLast).value.0;
      out == ref || (!SubsetKind(out.kind) && !OldServiceName(out))
  {
    hide Labels, LabelWarnings, ReservedKey, ServiceTag.Parse, ByName;
    var id := ByName(ref, namespace, topLevel, v3, nameLast);
    if id.Some? {
      NamedRef(ref, namespace, topLevel, v3, nameLast);
    } else {
      UnnamedSettles(ref, namespace, topLevel, v3, nameLast);
    }
  }

  lemma UnnamedSettles(ref: TargetRef, namespace: string, topLevel: bool, v3: bool, nameLast: bool)
    requires ConvertRefFor(ref, namespace, topLevel, v3, nameLast).Ok?
    requires ByName(ref, namespace, topLevel, v3, nameLast).None?
    ensures var out := ConvertRefFor(ref, namespace, topLevel, v3, nameLast).value.0;
      out == ref || (!SubsetKind(out.kind) && !OldServiceName(out))
  {
    hide Labels, LabelWarnings, ReservedKey, ServiceTag.Parse, Resolve, Kept, DropWarning, OtherTags;
  }

  /** An encoded name is shorter once it is decoded. */
  lemma EncodedNeverStable(ref: TargetRef, namespace: string, topLevel: bool, v3: bool, nameLast: bool)
    requires OldServiceName(ref)
    ensures !Stable(ref, namespace, topLevel, v3, nameLast)
  {
    hide Labels, LabelWarnings, ServiceTag.Parse;
  }

  /** Converting twice is converting once, whatever the two map iterations did, if and only if no encoded name is left.
      That holds of every name on 3.0, and of DNS names on 2.x. */
  lemma ConvertIdempotent(ref: TargetRef, namespace: string, topLevel: bool, v3: bool, first: bool, second: bool)
    requires ConvertRefFor(ref, namespace, topLevel, v3, first).Ok?
    ensures Stable(ConvertRefFor(ref, namespace, topLevel, v3, first).value.0, namespace, topLevel, v3, second)
       <==> !Nested(ref, namespace, topLevel, v3, first)
    ensures v3 || DnsNames(ref) ==> !Nested(ref, namespace, topLevel, v3, first)
  {
    hide ServiceRef, ReservedKey, Kept, ConvertOldName, ByName, ConvertRefFor, Stable;
    var out := ConvertRefFor(ref, namespace, topLevel, v3, first).value.0;
    if v3 || DnsNames(ref) { DnsNeverNested(ref, namespace, topLevel, v3, first); }
    if Nested(ref, namespace, topLevel, v3, first) {
      NamedRef(ref, namespace, topLevel, v3, first);
      EncodedNeverStable(out, namespace, topLevel, v3, second);
    } else {
      ConvertSettles(ref, namespace, topLevel, v3, first);
      if !SubsetKind(out.kind) && !OldServiceName(out) {
        SettledRefIsStable(out, namespace, topLevel, v3, second);
      } else {
        UnchangedIsStable(ref, namespace, topLevel, v3, first);
        UnchangedEitherWay(ref, namespace, topLevel, v3, first, second);
      }
    }
  }

  lemma UnchangedIsStable(ref: TargetRef, namespace: string, topLevel: bool, v3: bool, nameLast: bool)
    requires var r := ConvertRefFor(ref, namespace, topLevel, v3, nameLast); r.Ok? && r.value.0 == ref
    ensures Stable(ref, namespace, topLevel, v3, nameLast)
  {
  }

  /** A name that is encoded twice over is such a ref: one pass leaves a second one to do. */
  lemma TwiceEncodedIsNested(name: string, inner: string, outer: string, port: string, nameLast: bool)
    requires inner != "" && outer != "" && '_' !in inner && '_' !in outer && '_' !in port
    ensures var once := ServiceTag.Encode(name, inner, port);
            var ref := Bare("MeshService").(name := Some(ServiceTag.Encode(once, outer, port)));
            && Nested(ref, "", false, false, nameLast)
            && ConvertRefFor(ref, "", false, false, nameLast).value.0.name == Some(once)
  {
    hide ServiceTag.Parse, ServiceTag.Encode, ConvertRefFor;
    var once := ServiceTag.Encode(name, inner, port);
    ServiceTag.ParseInvertsEncode(name, inner, port);
    ServiceTag.ParseInvertsEncode(once, outer, port);
    var ref := Bare("MeshService").(name := Some(ServiceTag.Encode(once, outer, port)));
    NamedRef(ref, "", false, false, nameLast);
  }

  lemma UnchangedEitherWay(ref: TargetRef, namespace: string, topLevel: bool, v3: bool, first: bool, second: bool)
    requires Stable(ref, namespace, topLevel, v3, first)
    ensures Stable(ref, namespace, topLevel, v3, second)
  {
    if SubsetKind(ref.kind) && DecidingKey(ref.tags, first).Some? {
      DecidedIsConverted(ref, namespace, topLevel, v3, first);
    }
  }

  lemma DecidedIsConverted(ref: TargetRef, namespace: string, topLevel: bool, v3: bool, nameLast: bool)
    requires SubsetKind(ref.kind) && DecidingKey(ref.tags, nameLast).Some?
    ensures !SubsetKind(ConvertRef(ref, namespace, topLevel, v3, nameLast).0.kind)
  {
    hide Labels, LabelWarnings, ReservedKey;
  }

  lemma FromIdempotent(ref: TargetRef, kind: string, namespace: string, v3: bool, first: bool, second: bool)
    requires v3 || DnsNames(ref)
    ensures var e := Entry(Some(ref), None);
            var once := ConvertFrom(e, kind, namespace, v3, first);
            ConvertFrom(once, kind, namespace, v3, second) == once
  {
    hide ConvertRefFor, WithoutServiceStar;
    var r := ConvertRefFor(ref, namespace, false, v3, first);
    SettledRefIsStable(Bare("Mesh"), namespace, false, v3, second);
    if r.Ok? {
      DnsNeverNested(ref, namespace, false, v3, first);
      ConvertSettles(ref, namespace, false, v3, first);
      ConvertIdempotent(ref, namespace, false, v3, first, second);
    } else {
      V2NeverErrs(ref, namespace, false, first);
      ErrorEitherWay(ref, namespace, false, v3, first, second);
    }
  }

  lemma V2NeverErrs(ref: TargetRef, namespace: string, topLevel: bool, nameLast: bool)
    ensures ConvertRefFor(ref, namespace, topLevel, false, nameLast).Ok?
  {
    hide ConvertRef;
  }

  lemma ErrorEitherWay(ref: TargetRef, namespace: string, topLevel: bool, v3: bool, first: bool, second: bool)
    requires ConvertRefFor(ref, namespace, topLevel, v3, first).Err?
    ensures ConvertRefFor(ref, namespace, topLevel, v3, second).Err?
  {
    if SubsetKind(ref.kind) && DecidingKey(ref.tags, first).Some? {
      DecidedIsConverted(ref, namespace, topLevel, v3, first);
    }
  }

  predicate EntryDns(e: Entry) {
    e.Entry? && e.ref.Some? ==> DnsNames(e.ref.value)
  }

  predicate DnsDoc(d: Doc) {
    && (d.ref.Some? ==> DnsNames(d.ref.value))
    && (forall i :: 0 <= i < |d.to| ==> EntryDns(d.to[i]))
    && (forall i :: 0 <= i < |d.from| ==> EntryDns(d.from[i]))
  }

  /** Converting the refs of a converted document changes none of them. */
  lemma RefsIdempotent(d: Doc, v3: bool, first: Order, second: Order)
    requires (v3 || DnsDoc(d)) && RefsExpressible(d, v3, first)
    ensures var c := ConvertRefs(d, v3, first);
            RefsExpressible(c, v3, second) && ConvertRefs(c, v3, second) == c
  {
    hide ConvertRefFor, FromRef, DnsNames;
    var c := ConvertRefs(d, v3, first);
    if d.ref.Some? {
      ConvertIdempotent(d.ref.value, d.namespace, true, v3, NameLast(first, TOP), NameLast(second, TOP));
    }
    forall i | 0 <= i < |d.to|
      ensures ConvertTo(c.to[i], c.namespace, v3, NameLast(second, i)) == Some(c.to[i])
    {
      assert (v3 || EntryDns(d.to[i])) && ConvertTo(d.to[i], d.namespace, v3, NameLast(first, i)) == Some(c.to[i]);
      if d.to[i].Entry? && d.to[i].ref.Some? {
        ConvertIdempotent(d.to[i].ref.value, d.namespace, false, v3, NameLast(first, i), NameLast(second, i));
      }
    }
    forall i | 0 <= i < |d.from|
      ensures ConvertFrom(c.from[i], c.kind, c.namespace, v3, NameLast(second, FromPosition(i))) == c.from[i]
    {
      assert v3 || EntryDns(d.from[i]);
      if d.from[i].Entry? && d.from[i].ref.Some? {
        FromIdempotent(d.from[i].ref.value, d.kind, d.namespace, v3,
                       NameLast(first, FromPosition(i)), NameLast(second, FromPosition(i)));
      }
    }
    assert ConvertRefs(c, v3, second).to == c.to && ConvertRefs(c, v3, second).from == c.from;
  }

  /** Nothing is left to do: no ref converts, and a rules-API document needs neither rules[] nor a split. */
  ghost predicate Finished(d: Doc, v3: bool) {
    && (forall o: Order :: RefsExpressible(d, v3, o) && ConvertRefs(d, v3, o) == d)
    && (RulesKind(d.kind) ==> d.from == [] && (d.rules == [] || d.to == []))
  }

  lemma FinishedStays(d: Doc, v3: bool, o: Order)
    requires Finished(d, v3)
    ensures Pass(d, v3, o) == Some([d])
  {
    hide ConvertRefs, RefsExpressible;
  }

  /** A part of a finished document (one half of a split) is finished. */
  lemma PartFinished(c: Doc, part: Doc, v3: bool)
    requires Finished(c.(from := [], rules := []), v3)
    requires part.kind == c.kind && part.namespace == c.namespace && part.ref == c.ref && part.from == []
    requires part.to == c.to || part.to == []
    requires RulesKind(c.kind) ==> part.rules == [] || part.to == []
    ensures Finished(part, v3)
  {
    hide ConvertRefFor;
    var whole := c.(from := [], rules := []);
    forall o: Order ensures RefsExpressible(part, v3, o) && ConvertRefs(part, v3, o) == part {
      assert RefsExpressible(whole, v3, o) && ConvertRefs(whole, v3, o) == whole;
      assert ConvertRefs(part, v3, o).to == part.to && ConvertRefs(part, v3, o).from == part.from;
      if part.ref.Some? { assert ConvertRefs(part, v3, o).ref == ConvertRefs(whole, v3, o).ref; }
    }
  }

  lemma SubsetPassFinishes(d: Doc, v3: bool, o: Order, out: Doc)
    requires (v3 || DnsDoc(d)) && SubsetPass(d, v3, o).Some? && out in SubsetPass(d, v3, o).value
    ensures Finished(out, v3)
  {
    hide ConvertRefFor, FromRef;
    var c := ConvertRefs(d, v3, o);
    forall o': Order ensures RefsExpressible(c, v3, o') && ConvertRefs(c, v3, o') == c {
      RefsIdempotent(d, v3, o, o');
    }
    if RulesKind(d.kind) {
      var bare := c.(from := [], rules := []);
      assert Finished(bare, v3) by {
        forall o': Order ensures RefsExpressible(bare, v3, o') && ConvertRefs(bare, v3, o') == bare {
          assert RefsExpressible(c, v3, o') && ConvertRefs(c, v3, o') == c;
          assert ConvertRefs(bare, v3, o').to == ConvertRefs(c, v3, o').to;
        }
      }
      PartFinished(c, out, v3);
    }
  }

  /** Outside the rules-API kinds one pass finishes; for those kinds two do, the second being needed
      only because the from[] check looks at neither tagged to[] refs nor service-less selectors. */
  lemma TwoPassesFinish(d: Doc, v3: bool, o1: Order, o2: Order, d1: Doc)
    requires (v3 || DnsDoc(d)) && Pass(d, v3, o1).Some? && d1 in Pass(d, v3, o1).value
    ensures Detect(d) == Subset ==> Finished(d1, v3)
    ensures Detect(d) == Passthrough ==> d1 == d
    ensures Detect(d) == Rules ==> RulesKind(d.kind) && Detect(d1) != Rules && (v3 || DnsDoc(d1))
    ensures Pass(d1, v3, o2).Some? ==>
              forall d2, o3: Order :: d2 in Pass(d1, v3, o2).value ==> Pass(d2, v3, o3) == Some([d2])
  {
    hide ConvertRefs, RefsExpressible;
    if Detect(d) == Subset {
      SubsetPassFinishes(d, v3, o1, d1);
      FinishedStays(d1, v3, o2);
    }
    if Pass(d1, v3, o2).Some? {
      forall d2, o3: Order | d2 in Pass(d1, v3, o2).value ensures Pass(d2, v3, o3) == Some([d2]) {
        if Detect(d) == Subset {
          FinishedStays(d1, v3, o3);
        } else if Detect(d1) == Subset {
          SubsetPassFinishes(d1, v3, o2, d2);
          FinishedStays(d2, v3, o3);
        }
      }
    }
  }

  // ---- termination in general ------------------------------------------------

  function Max(a: nat, b: nat): nat {
    if a > b then a else b
  }

  /** How much of a ref is still encoded. A decoded name can be an encoded name again, but a shorter one. */
  function Weight(ref: TargetRef): nat {
    if SubsetKind(ref.kind) then
      2 + Max(|TagOr(ref.tags, SERVICE)|, |TagOr(ref.tags, SERVICE_NAME)|)
    else if OldServiceName(ref) then 1 + |ref.name.value|
    else 0
  }

  lemma ConversionShrinks(ref: TargetRef, namespace: string, topLevel: bool, v3: bool, nameLast: bool)
    requires ConvertRefFor(ref, namespace, topLevel, v3, nameLast).Ok?
    ensures var out := ConvertRefFor(ref, namespace, topLevel, v3, nameLast).value.0;
            out == ref || Weight(out) < Weight(ref)
  {
    hide Labels, LabelWarnings, ReservedKey, ServiceTag.Parse;
    if SubsetKind(ref.kind) && DecidingKey(ref.tags, nameLast).Some? {
      var key := DecidingKey(ref.tags, nameLast).value;
      NameNoLonger(ref.tags[key]);
      assert |ref.tags[key]| <= Max(|TagOr(ref.tags, SERVICE)|, |TagOr(ref.tags, SERVICE_NAME)|);
    }
  }

  lemma NameNoLonger(value: string)
    ensures |ServiceTag.Parse(value).name| <= |value|
  {
  }

  function TopWeight(ref: Option<TargetRef>): nat {
    if ref.None? then 0 else Weight(ref.value)
  }

  function ToWeight(es: seq<Entry>): nat {
    if es == [] then 0 else (if es[0].Entry? then TopWeight(es[0].ref) else 0) + ToWeight(es[1..])
  }

  /** In from[] a permission or fault policy of 2.x turns a half-migrated name back into a selector,
      and keeps selectors: only such names count there. */
  function FromWeight1(e: Entry, keepsSubset: bool): nat {
    if e.Opaque? || e.ref.None? then 0
    else if keepsSubset then
      if e.ref.value.kind == "MeshSubset" then 0
      else if OldServiceName(e.ref.value) then 1
      else Weight(e.ref.value)
    else Weight(e.ref.value)
  }

  function FromWeight(es: seq<Entry>, keepsSubset: bool): nat {
    if es == [] then 0 else FromWeight1(es[0], keepsSubset) + FromWeight(es[1..], keepsSubset)
  }

  /** What a document still has to lose: encoded refs, a deprecated from[], and rules[] next to to[]. */
  function Measure(d: Doc, v3: bool): nat {
    TopWeight(d.ref) + ToWeight(d.to) + FromWeight(d.from, KeepsSubsets(d.kind, v3))
    + (if d.from != [] then 1 else 0) + (if d.rules != [] && d.to != [] then 1 else 0)
    + (if d.from != [] && d.to != [] then 1 else 0)
  }

  lemma {:induction false} ToShrinks(a: seq<Entry>, b: seq<Entry>, namespace: string, v3: bool, last: seq<bool>)
    requires |a| == |b| == |last|
    requires forall i :: 0 <= i < |a| ==> ConvertTo(a[i], namespace, v3, last[i]) == Some(b[i])
    ensures a == b || ToWeight(b) < ToWeight(a)
    ensures ToWeight(b) <= ToWeight(a)
  {
    hide ConvertRefFor, Weight;
    if a != [] {
      assert ConvertTo(a[0], namespace, v3, last[0]) == Some(b[0]);
      if a[0].Entry? && a[0].ref.Some? { ConversionShrinks(a[0].ref.value, namespace, false, v3, last[0]); }
      forall i | 0 <= i < |a[1..]| ensures ConvertTo(a[1..][i], namespace, v3, last[1..][i]) == Some(b[1..][i]) {
        assert ConvertTo(a[i + 1], namespace, v3, last[i + 1]) == Some(b[i + 1]);
      }
      ToShrinks(a[1..], b[1..], namespace, v3, last[1..]);
      assert a == [a[0]] + a[1..] && b == [b[0]] + b[1..];
    }
  }

  lemma FromOneShrinks(e: Entry, kind: string, namespace: string, v3: bool, nameLast: bool)
    ensures var out := ConvertFrom(e, kind, namespace, v3, nameLast);
            var keeps := KeepsSubsets(kind, v3);
            out == e || FromWeight1(out, keeps) < FromWeight1(e, keeps)
  {
    hide ConvertRefFor, WithoutServiceStar;
    if e.Entry? && e.ref.Some? && ConvertRefFor(e.ref.value, namespace, false, v3, nameLast).Ok? {
      ConversionShrinks(e.ref.value, namespace, false, v3, nameLast);
    }
  }

  lemma {:induction false} FromShrinks(a: seq<Entry>, b: seq<Entry>, kind: string, namespace: string, v3: bool,
                                       last: seq<bool>)
    requires |a| == |b| == |last|
    requires forall i :: 0 <= i < |a| ==> b[i] == ConvertFrom(a[i], kind, namespace, v3, last[i])
    ensures var keeps := KeepsSubsets(kind, v3);
            (a == b || FromWeight(b, keeps) < FromWeight(a, keeps)) && FromWeight(b, keeps) <= FromWeight(a, keeps)
  {
    hide ConvertFrom, FromWeight1;
    if a != [] {
      FromOneShrinks(a[0], kind, namespace, v3, last[0]);
      forall i | 0 <= i < |a[1..]| ensures b[1..][i] == ConvertFrom(a[1..][i], kind, namespace, v3, last[1..][i]) {
        assert b[i + 1] == ConvertFrom(a[i + 1], kind, namespace, v3, last[i + 1]);
      }
      FromShrinks(a[1..], b[1..], kind, namespace, v3, last[1..]);
      assert a == [a[0]] + a[1..] && b == [b[0]] + b[1..];
    }
  }

  lemma RefsShrink(d: Doc, v3: bool, o: Order)
    requires RefsExpressible(d, v3, o)
    ensures var c := ConvertRefs(d, v3, o);
            && TopWeight(c.ref) <= TopWeight(d.ref) && ToWeight(c.to) <= ToWeight(d.to)
            && FromWeight(c.from, KeepsSubsets(d.kind, v3)) <= FromWeight(d.from, KeepsSubsets(d.kind, v3))
            && (c == d || Measure(c, v3) < Measure(d, v3)) && Measure(c, v3) <= Measure(d, v3)
  {
    hide ConvertRefFor, FromRef, Weight, FromWeight1;
    var c := ConvertRefs(d, v3, o);
    if d.ref.Some? { ConversionShrinks(d.ref.value, d.namespace, true, v3, NameLast(o, TOP)); }
    ToShrinks(d.to, c.to, d.namespace, v3, seq(|d.to|, i => NameLast(o, i)));
    FromShrinks(d.from, c.from, d.kind, d.namespace, v3,
        seq(|d.from|, i requires 0 <= i => NameLast(o, FromPosition(i))));
  }

  /** Whatever the service names are, every pass that changes a document shrinks it. */
  lemma PassShrinks(d: Doc, v3: bool, o: Order, out: Doc)
    requires Pass(d, v3, o).Some? && out in Pass(d, v3, o).value && out != d
    ensures Measure(out, v3) < Measure(d, v3)
  {
    hide ConvertRefFor, FromRef, Weight, FromWeight1, HasServiceTag, OldName;
    if Detect(d) == Subset {
      RefsShrink(d, v3, o);
    }
  }

  /** A run of the migrator over its own output, each step changing the document. */
  ghost predicate Run(chain: seq<Doc>, v3: bool) {
    forall i :: 0 <= i < |chain| - 1 ==> chain[i + 1] != chain[i] && StepTo(chain[i], chain[i + 1], v3)
  }

  ghost predicate StepTo(d: Doc, next: Doc, v3: bool) {
    exists o: Order :: Pass(d, v3, o).Some? && next in Pass(d, v3, o).value
  }

  /** No run is longer than the measure of the document it starts from. */
  lemma {:induction false} RunsAreBounded(chain: seq<Doc>, v3: bool)
    requires chain != [] && Run(chain, v3)
    ensures |chain| <= Measure(chain[0], v3) + 1
    decreases |chain|
  {
    hide Pass, Measure;
    if |chain| > 1 {
      assert StepTo(chain[0], chain[1], v3) && chain[1] != chain[0];
      var o: Order :| Pass(chain[0], v3, o).Some? && chain[1] in Pass(chain[0], v3, o).value;
      PassShrinks(chain[0], v3, o, chain[1]);
      var rest := chain[1..];
      assert Run(rest, v3) by {
        forall i | 0 <= i < |rest| - 1 ensures rest[i + 1] != rest[i] && StepTo(rest[i], rest[i + 1], v3) {
          assert chain[i + 2] != chain[i + 1] && StepTo(chain[i + 1], chain[i + 2], v3);
        }
      }
      RunsAreBounded(rest, v3);
    }
  }
}
