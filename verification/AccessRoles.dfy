/** AccessRole and AccessAudit rules for 3.0 (v3_kongmesh.go). An empty list means "everything", so no
    deletion may ever empty one. */
module AccessRoles {
  import opened Text
  import opened Json

  /** The type tables: successors of removed types, and removed types without one. */
  datatype Registry = Registry(successors: map<string, string>, removed: set<string>)

  /** A successor is itself a type 3.0 keeps. */
  predicate Settled(reg: Registry) {
    forall t :: t in reg.successors ==>
      reg.successors[t] !in reg.successors && reg.successors[t] !in reg.removed
  }

  // ---- types -----------------------------------------------------------------

  /** What a listed type stands for on 3.0. */
  function Target(reg: Registry, t: string): Option<string> {
    if t in reg.successors then Some(reg.successors[t])
    else if t in reg.removed then None
    else Some(t)
  }

  /** A 3.0 type that a listed one means: its successor, or itself when it is not removed. */
  predicate Means(reg: Registry, listed: string, t: string) {
    if listed in reg.successors then t == reg.successors[listed] else t == listed && listed !in reg.removed
  }

  function AddTarget(out: seq<string>, target: Option<string>): seq<string> {
    if target.None? || target.value in out then out else out + [target.value]
  }

  function Rewrite(reg: Registry, types: seq<string>): seq<string> {
    if types == [] then []
    else AddTarget(Rewrite(reg, types[..|types| - 1]), Target(reg, types[|types| - 1]))
  }

  /** rewriteRBACTypesForV3. (The tables rename no type to itself, so a renamed list is a different one.) */
  method RewriteTypes(reg: Registry, types: seq<string>) returns (out: seq<string>, changed: bool)
    ensures out == Rewrite(reg, types)
    ensures changed <==> out != types
  {
    hide Rewrite;
    out := [];
    var seen := {};
    var renamed, removed, deduped := false, false, false;
    RewriteNone(reg);
    for i := 0 to |types|
      invariant out == Rewrite(reg, types[..i]) && seen == Elems(out)
      invariant renamed || removed || deduped <==> out != types[..i]
      invariant |out| <= i
      invariant removed || deduped <==> |out| < i
    {
      RewriteOneMore(reg, types, i);
      assert types[..i + 1] == types[..i] + [types[i]];
      var t := types[i];
      var nt := t;
      if t in reg.successors {
        nt := reg.successors[t];
        if nt != t { RenamedDiffers(out, types[..i], nt, t); }
        renamed := renamed || nt != t;
      } else if t in reg.removed {
        removed := true;
        continue;
      }
      assert nt in seen <==> nt in out;
      if nt in seen {
        deduped := true;
        continue;
      }
      seen := seen + {nt};
      assert Elems(out + [nt]) == Elems(out) + {nt};
      assert out + [nt] == types[..i] + [t] <==> out == types[..i] && nt == t by {
        AppendEqual(out, types[..i], nt, t);
      }
      out := out + [nt];
    }
    assert types[..|types|] == types;
    changed := renamed || removed || deduped;
  }

  lemma RewriteNone(reg: Registry)
    ensures Rewrite(reg, []) == []
  {
  }

  lemma RewriteOneMore(reg: Registry, types: seq<string>, i: nat)
    requires i < |types|
    ensures Rewrite(reg, types[..i + 1]) == AddTarget(Rewrite(reg, types[..i]), Target(reg, types[i]))
  {
    assert types[..i + 1][..i] == types[..i];
  }

  lemma RenamedDiffers(a: seq<string>, b: seq<string>, x: string, y: string)
    requires x != y
    ensures a + [x] != b + [y]
  {
    AppendEqual(a, b, x, y);
  }

  /** The rewritten list names exactly the 3.0 meanings of the old one, each once. */
  lemma {:induction false} RewriteMeans(reg: Registry, types: seq<string>)
    ensures Distinct(Rewrite(reg, types))
    ensures forall t :: t in Rewrite(reg, types) <==> exists i :: 0 <= i < |types| && Means(reg, types[i], t)
  {
    if types != [] {
      var init, last := types[..|types| - 1], types[|types| - 1];
      RewriteMeans(reg, init);
      forall t
        ensures t in Rewrite(reg, types) <==> exists i :: 0 <= i < |types| && Means(reg, types[i], t)
      {
        if i :| 0 <= i < |types| && Means(reg, types[i], t) {
          if i < |init| { assert init[i] == types[i]; }
        }
        if t in Rewrite(reg, types) {
          if t in Rewrite(reg, init) {
            var i :| 0 <= i < |init| && Means(reg, init[i], t);
            assert types[i] == init[i];
          } else {
            assert Means(reg, last, t);
          }
        }
      }
    }
  }

  lemma {:induction false} RewriteKeeps(reg: Registry, types: seq<string>, n: nat)
    requires Distinct(types) && n <= |types|
    requires forall i :: 0 <= i < |types| ==> Target(reg, types[i]) == Some(types[i])
    ensures Rewrite(reg, types[..n]) == types[..n]
  {
    hide Target;
    if n > 0 {
      RewriteKeeps(reg, types, n - 1);
      assert types[..n][..n - 1] == types[..n - 1] && types[..n] == types[..n - 1] + [types[n - 1]];
      assert types[n - 1] !in types[..n - 1];
    }
  }

  lemma RewriteIdempotent(reg: Registry, types: seq<string>)
    requires Settled(reg)
    ensures Rewrite(reg, Rewrite(reg, types)) == Rewrite(reg, types)
  {
    RewriteMeans(reg, types);
    var out := Rewrite(reg, types);
    forall i | 0 <= i < |out| ensures Target(reg, out[i]) == Some(out[i]) {
      assert out[i] in out;
    }
    RewriteKeeps(reg, out, |out|);
    assert out[..|out|] == out;
  }

  // ---- rules -----------------------------------------------------------------

  function Strings(items: seq<Value>): seq<string> {
    if items == [] then []
    else (if items[0].Str? then [items[0].s] else []) + Strings(items[1..])
  }

  function StrValues(items: seq<string>): seq<Value> {
    seq(|items|, i requires 0 <= i < |items| => Str(items[i]))
  }

  lemma {:induction false} StringsOfValues(items: seq<string>)
    ensures Strings(StrValues(items)) == items
  {
    if items != [] {
      StringsOfValues(items[1..]);
      assert StrValues(items)[1..] == StrValues(items[1..]);
    }
  }

  function TypesOf(rule: Object): seq<string> {
    Strings(ArrAt(rule, "types"))
  }

  function WhenOf(rule: Object): seq<Value> {
    ArrAt(rule, "when")
  }

  /** rewriteRuleTypes drops a rule when every type it lists is gone. */
  predicate Drops(reg: Registry, rule: Object) {
    TypesOf(rule) != [] && Rewrite(reg, TypesOf(rule)) == []
  }

  function FixTypes(reg: Registry, rule: Object): Object {
    var types := TypesOf(rule);
    if Rewrite(reg, types) == types then rule
    else rule["types" := Arr(StrValues(Rewrite(reg, types)))]
  }

  // ---- qualifiers ------------------------------------------------------------

  predicate LegacyKey(k: string) {
    k == "sources" || k == "destinations" || k == "selectors"
  }

  /** The entry has a qualifier 3.0 knows. */
  predicate HasOther(w: Value) {
    w.Obj? ==> exists k :: k in w.fields && !w.fields[k].Null? && !LegacyKey(k)
  }

  function WithoutLegacy(w: Value): Value {
    if !w.Obj? then w
    else Obj(map k | k in w.fields && (w.fields[k].Null? || !LegacyKey(k)) :: w.fields[k])
  }

  /** Entries with a known qualifier lose their legacy keys; the others go when one of those remains. */
  function KeepOther(when: seq<Value>): seq<Value> {
    if when == [] then []
    else (if HasOther(when[0]) then [WithoutLegacy(when[0])] else []) + KeepOther(when[1..])
  }

  function FixWhen(when: seq<Value>): seq<Value> {
    if KeepOther(when) == [] then when else KeepOther(when)
  }

  function FixQualifiers(rule: Object): Object {
    var when := WhenOf(rule);
    if FixWhen(when) == when then rule else rule["when" := Arr(FixWhen(when))]
  }

  /** One qualifier: which of its non-null keys are legacy, which are not; the keys in any order. */
  method SplitQualifier(q: Object) returns (legacy: set<string>, other: set<string>)
    ensures legacy == set k | k in q && !q[k].Null? && LegacyKey(k)
    ensures other == set k | k in q && !q[k].Null? && !LegacyKey(k)
  {
    legacy, other := {}, {};
    var todo := q.Keys;
    while todo != {}
      invariant todo <= q.Keys
      invariant legacy == set k | k in q && k !in todo && !q[k].Null? && LegacyKey(k)
      invariant other == set k | k in q && k !in todo && !q[k].Null? && !LegacyKey(k)
      decreases |todo|
    {
      var k :| k in todo;
      todo := todo - {k};
      if q[k].Null? { continue; }
      if LegacyKey(k) { legacy := legacy + {k}; } else { other := other + {k}; }
    }
  }

  lemma KeepOtherAppend(when: seq<Value>, w: Value)
    ensures KeepOther(when + [w]) == KeepOther(when) + (if HasOther(w) then [WithoutLegacy(w)] else [])
  {
    if when == [] {
      assert [w][1..] == [] && [] + [w] == [w];
    } else {
      KeepOtherAppend(when[1..], w);
      assert (when + [w])[1..] == when[1..] + [w];
    }
  }

  /** scanAccessRoleQualifiers under v3. */
  method ScanQualifiers(rule: Object) returns (changed: bool, out: Object)
    ensures out == FixQualifiers(rule)
    ensures changed <==> out != rule
  {
    var when := WhenOf(rule);
    if |when| == 0 { return false, rule; }
    var stripped, kept := [], [];
    var anyStripped, legacyOnly := false, false;
    for i := 0 to |when|
      invariant kept == KeepOther(when[..i])
      invariant |stripped| == i && |kept| <= i
      invariant !legacyOnly <==> |kept| == i
      invariant !legacyOnly ==> stripped == kept
      invariant !anyStripped <==> stripped == when[..i]
      invariant kept == [] ==> !anyStripped
    {
      KeepOtherAppend(when[..i], when[i]);
      assert when[..i + 1] == when[..i] + [when[i]];
      var w := when[i];
      if !w.Obj? {
        stripped, kept := stripped + [w], kept + [w];
        continue;
      }
      var legacy, other := SplitQualifier(w.fields);
      assert HasOther(w) <==> other != {} by {
        if HasOther(w) { var k :| k in w.fields && !w.fields[k].Null? && !LegacyKey(k); assert k in other; }
        if other != {} { var k :| k in other; }
      }
      if other == {} {
        legacyOnly := true;
        stripped := stripped + [w];
      } else {
        var q := Obj(w.fields - legacy);
        assert q == WithoutLegacy(w);
        if legacy != {} {
          var k :| k in legacy;
          assert k in w.fields && k !in q.fields;
          anyStripped := true;
        } else {
          assert q == w;
        }
        stripped, kept := stripped + [q], kept + [q];
      }
    }
    assert when[..|when|] == when;
    if !legacyOnly {
      out := if anyStripped then rule["when" := Arr(stripped)] else rule;
      return anyStripped, out;
    }
    if kept != [] {
      assert kept != when;
      return true, rule["when" := Arr(kept)];
    }
    return false, rule;
  }

  // ---- whole role or audit -----------------------------------------------------

  /** An AccessRole rule also has its qualifiers fixed; an AccessAudit rule has none. */
  function FixRule(reg: Registry, rule: Object, role: bool): Object {
    if role then FixQualifiers(FixTypes(reg, rule)) else FixTypes(reg, rule)
  }

  function FixRules(reg: Registry, rules: seq<Value>, role: bool): seq<Value> {
    if rules == [] then []
    else
      var rest := FixRules(reg, rules[..|rules| - 1], role);
      var r := rules[|rules| - 1];
      if !r.Obj? then rest + [r]
      else if Drops(reg, r.fields) then rest
      else rest + [Obj(FixRule(reg, r.fields, role))]
  }

  function Scan(reg: Registry, rules: seq<Value>, role: bool): seq<Value> {
    if FixRules(reg, rules, role) == [] then rules else FixRules(reg, rules, role)
  }

  /** rewriteRuleTypes under v3. */
  method RewriteRuleTypes(reg: Registry, rule: Object) returns (changed: bool, drop: bool, out: Object)
    ensures drop <==> Drops(reg, rule)
    ensures !drop ==> out == FixTypes(reg, rule) && (changed <==> out != rule)
  {
    var types := TypesOf(rule);
    if |types| == 0 { return false, false, rule; }
    var rewritten, differs := RewriteTypes(reg, types);
    if !differs { return false, false, rule; }
    if |rewritten| == 0 { return true, true, rule; }
    StringsOfValues(rewritten);
    out := rule["types" := Arr(StrValues(rewritten))];
    assert TypesOf(out) == rewritten;
    return true, false, out;
  }

  /** The two fixes touch different fields, so neither undoes the other. */
  lemma ChangesAddUp(reg: Registry, rule: Object)
    ensures FixQualifiers(FixTypes(reg, rule)) == rule <==>
              FixTypes(reg, rule) == rule && FixQualifiers(FixTypes(reg, rule)) == FixTypes(reg, rule)
  {
    var typed := FixTypes(reg, rule);
    assert typed != rule ==> "types" in typed && FixQualifiers(typed)["types"] == typed["types"];
    assert typed != rule ==> typed == rule["types" := typed["types"]];
  }

  /** scanAccessRole and scanAccessAudit under v3: a role whose every rule would go is left as it was. */
  method ScanRules(reg: Registry, rules: seq<Value>, role: bool) returns (changed: bool, out: seq<Value>)
    ensures out == Scan(reg, rules, role)
    ensures changed <==> out != rules
  {
    hide FixTypes, FixQualifiers, Drops;
    var kept := [];
    var dropped := 0;
    changed := false;
    for i := 0 to |rules|
      invariant kept == FixRules(reg, rules[..i], role)
      invariant |kept| + dropped == i
      invariant changed || dropped > 0 <==> kept != rules[..i]
    {
      assert rules[..i + 1][..i] == rules[..i];
      var r := rules[i];
      assert rules[..i + 1] == rules[..i] + [r];
      if !r.Obj? {
        AppendEqual(kept, rules[..i], r, r);
        kept := kept + [r];
        continue;
      }
      var c, drop, rule := RewriteRuleTypes(reg, r.fields);
      if drop {
        dropped := dropped + 1;
        continue;
      }
      changed := changed || c;
      if role {
        c, rule := ScanQualifiers(rule);
        changed := changed || c;
      }
      ChangesAddUp(reg, r.fields);
      AppendEqual(kept, rules[..i], Obj(rule), r);
      kept := kept + [Obj(rule)];
    }
    assert rules[..|rules|] == rules;
    if dropped > 0 {
      if |kept| == 0 { return false, rules; }
      return true, kept;
    }
    return changed, kept;
  }

  // ---- what a rule grants ------------------------------------------------------

  /** An entry as 3.0 matches it: sources, destinations, selectors and null keys do not exist for it, and without any
      other key it matches nothing. Matches is the rest of the qualifier semantics, left arbitrary. */
  function Known(w: Value): Value {
    if !w.Obj? then w
    else Obj(map k | k in w.fields && !w.fields[k].Null? && k !in {"sources", "destinations", "selectors"} ::
          w.fields[k])
  }

  ghost predicate EntryMatches(w: Value, matches: Value -> bool) {
    (w.Obj? ==> Fields(Known(w)) != map[]) && matches(Known(w))
  }

  /** An empty when matches every object. */
  ghost predicate WhenMatches(when: seq<Value>, matches: Value -> bool) {
    when == [] || exists i :: 0 <= i < |when| && EntryMatches(when[i], matches)
  }

  /** 3.0: an empty types list covers every type. allows stands for the access, mesh and names conditions. */
  ghost predicate RuleGrants(rule: Object, t: string, allows: Object -> bool, matches: Value -> bool) {
    && (TypesOf(rule) == [] || t in TypesOf(rule))
    && allows(rule - {"types", "when"}) && WhenMatches(WhenOf(rule), matches)
  }

  /** The old rule, its types read as their successors; a type without one covers nothing. */
  ghost predicate OldRuleGrants(reg: Registry, rule: Object, t: string, allows: Object -> bool,
                                matches: Value -> bool)
  {
    && (TypesOf(rule) == [] || exists i :: 0 <= i < |TypesOf(rule)| && Means(reg, TypesOf(rule)[i], t))
    && allows(rule - {"types", "when"}) && WhenMatches(WhenOf(rule), matches)
  }

  ghost predicate Grants(rules: seq<Value>, t: string, allows: Object -> bool, matches: Value -> bool) {
    exists i :: 0 <= i < |rules| && rules[i].Obj? && RuleGrants(rules[i].fields, t, allows, matches)
  }

  ghost predicate OldGrants(reg: Registry, rules: seq<Value>, t: string, allows: Object -> bool,
                            matches: Value -> bool)
  {
    exists i :: 0 <= i < |rules| && rules[i].Obj? && OldRuleGrants(reg, rules[i].fields, t, allows, matches)
  }

  lemma {:induction false} KeptEntriesMatch(when: seq<Value>, matches: Value -> bool)
    ensures (exists i :: 0 <= i < |KeepOther(when)| && EntryMatches(KeepOther(when)[i], matches))
       <==> (exists i :: 0 <= i < |when| && EntryMatches(when[i], matches))
  {
    if when != [] {
      var w, rest := when[0], when[1..];
      KeptEntriesMatch(rest, matches);
      var kept, restKept := KeepOther(when), KeepOther(rest);
      StrippedMatches(w, matches);
      if HasOther(w) {
        assert kept[0] == WithoutLegacy(w) && kept[1..] == restKept;
      }
      if i :| 0 <= i < |kept| && EntryMatches(kept[i], matches) {
        if HasOther(w) {
          if i == 0 { assert EntryMatches(when[0], matches); }
          else { assert EntryMatches(restKept[i - 1], matches); }
        }
        if j :| 0 <= j < |rest| && EntryMatches(rest[j], matches) { assert when[j + 1] == rest[j]; }
      }
      if i :| 0 <= i < |when| && EntryMatches(when[i], matches) {
        if i > 0 {
          assert EntryMatches(rest[i - 1], matches);
          var j :| 0 <= j < |restKept| && EntryMatches(restKept[j], matches);
          assert kept[if HasOther(w) then j + 1 else j] == restKept[j];
        } else {
          assert EntryMatches(kept[0], matches);
        }
      }
    }
  }

  lemma StrippedMatches(w: Value, matches: Value -> bool)
    ensures HasOther(WithoutLegacy(w)) == HasOther(w) && Known(WithoutLegacy(w)) == Known(w)
    ensures EntryMatches(WithoutLegacy(w), matches) == EntryMatches(w, matches)
    ensures EntryMatches(w, matches) ==> HasOther(w)
  {
    if w.Obj? && Fields(Known(w)) != map[] {
      var k :| k in Fields(Known(w));
      assert k in w.fields && !w.fields[k].Null? && !LegacyKey(k);
    }
    if w.Obj? && HasOther(w) {
      var k :| k in w.fields && !w.fields[k].Null? && !LegacyKey(k);
      assert k in WithoutLegacy(w).fields;
    }
  }

  lemma FixWhenMatches(when: seq<Value>, matches: Value -> bool)
    ensures WhenMatches(FixWhen(when), matches) <==> WhenMatches(when, matches)
    ensures when != [] ==> FixWhen(when) != []
  {
    KeptEntriesMatch(when, matches);
  }

  /** One kept rule grants exactly what it granted, and neither of its lists became empty. */
  lemma FixRuleGrants(reg: Registry, rule: Object, role: bool, t: string, allows: Object -> bool,
                      matches: Value -> bool)
    requires !Drops(reg, rule)
    ensures RuleGrants(FixRule(reg, rule, role), t, allows, matches) <==> OldRuleGrants(reg, rule, t, allows, matches)
    ensures TypesOf(rule) != [] ==> TypesOf(FixRule(reg, rule, role)) != []
    ensures WhenOf(rule) != [] ==> WhenOf(FixRule(reg, rule, role)) != []
  {
    hide Rewrite, EntryMatches, KeepOther;
    var types := TypesOf(rule);
    var typed, fixed := FixTypes(reg, rule), FixRule(reg, rule, role);
    RewriteMeans(reg, types);
    StringsOfValues(Rewrite(reg, types));
    assert TypesOf(typed) == Rewrite(reg, types) && WhenOf(typed) == WhenOf(rule);
    FixWhenMatches(WhenOf(rule), matches);
    assert TypesOf(fixed) == TypesOf(typed);
    assert WhenOf(fixed) == if role then FixWhen(WhenOf(rule)) else WhenOf(rule);
    assert fixed - {"types", "when"} == rule - {"types", "when"};
    assert types == [] <==> TypesOf(fixed) == [] by { RewriteNone(reg); }
  }

  lemma DroppedGrantsNothing(reg: Registry, rule: Object, t: string, allows: Object -> bool, matches: Value -> bool)
    requires Drops(reg, rule)
    ensures !OldRuleGrants(reg, rule, t, allows, matches)
    ensures forall i, any :: 0 <= i < |TypesOf(rule)| ==> !Means(reg, TypesOf(rule)[i], any)
  {
    forall i, any | 0 <= i < |TypesOf(rule)| ensures !Means(reg, TypesOf(rule)[i], any) {
      MeaningListed(reg, TypesOf(rule), i, any);
    }
  }

  lemma MeaningListed(reg: Registry, types: seq<string>, i: nat, t: string)
    requires i < |types|
    ensures Means(reg, types[i], t) ==> t in Rewrite(reg, types)
  {
    RewriteMeans(reg, types);
  }

  lemma {:induction false} FixRulesGrant(reg: Registry, rules: seq<Value>, role: bool, t: string,
                                         allows: Object -> bool,
                                         matches: Value -> bool)
    ensures Grants(FixRules(reg, rules, role), t, allows, matches) <==> OldGrants(reg, rules, t, allows, matches)
    decreases |rules|
  {
    hide RuleGrants, OldRuleGrants, FixRule, Drops;
    if rules != [] {
      var n := |rules| - 1;
      var init, r := rules[..n], rules[n];
      FixRulesGrant(reg, init, role, t, allows, matches);
      var kept := FixRules(reg, init, role);
      if r.Obj? {
        if Drops(reg, r.fields) { DroppedGrantsNothing(reg, r.fields, t, allows, matches); }
        else { FixRuleGrants(reg, r.fields, role, t, allows, matches); }
      }
      var all := FixRules(reg, rules, role);
      assert kept == all[..|kept|];
      if i :| 0 <= i < |all| && all[i].Obj? && RuleGrants(all[i].fields, t, allows, matches) {
        if i < |kept| {
          assert kept[i].Obj? && RuleGrants(kept[i].fields, t, allows, matches);
          var j :| 0 <= j < |init| && init[j].Obj? && OldRuleGrants(reg, init[j].fields, t, allows, matches);
          assert rules[j] == init[j];
        } else {
          assert rules[n].Obj? && OldRuleGrants(reg, rules[n].fields, t, allows, matches);
        }
      }
      if j :| 0 <= j < |rules| && rules[j].Obj? && OldRuleGrants(reg, rules[j].fields, t, allows, matches) {
        if j < n {
          assert init[j].Obj? && OldRuleGrants(reg, init[j].fields, t, allows, matches);
          var i :| 0 <= i < |kept| && kept[i].Obj? && RuleGrants(kept[i].fields, t, allows, matches);
          assert all[i] == kept[i];
        } else {
          assert all[|kept|] == Obj(FixRule(reg, r.fields, role));
        }
      }
    }
  }

  /** The rewritten role grants exactly what the old one granted, successors for removed types, unless every
      rule would go: then the role granted nothing, and is returned unchanged. */
  lemma ScanPreservesGrants(reg: Registry, rules: seq<Value>, role: bool, t: string, allows: Object -> bool,
                            matches: Value -> bool)
    ensures FixRules(reg, rules, role) != [] ==>
              (Grants(Scan(reg, rules, role), t, allows, matches) <==> OldGrants(reg, rules, t, allows, matches))
    ensures FixRules(reg, rules, role) == [] ==>
              Scan(reg, rules, role) == rules && !OldGrants(reg, rules, t, allows, matches)
  {
    hide RuleGrants, OldRuleGrants, FixRules;
    FixRulesGrant(reg, rules, role, t, allows, matches);
  }

  // ---- what the rewritten rules look like ------------------------------------------

  /** An entry holds no qualifier 3.0 ignores. */
  ghost predicate Clean(w: Value) {
    w.Obj? ==> forall k :: k in w.fields && k in {"sources", "destinations", "selectors"} ==> w.fields[k].Null?
  }

  /** An entry asks for something 3.0 knows. */
  predicate AsksKnown(w: Value) {
    w.Obj? ==> Fields(Known(w)) != map[]
  }

  /** An entry without its ignored qualifiers: the same one but for them. */
  ghost predicate Cleaned(w: Value, now: Value) {
    && Clean(now) && (!w.Obj? ==> now == w)
    && (w.Obj? ==>
          && now.Obj?
          && (forall k :: k in now.fields ==> k in w.fields && now.fields[k] == w.fields[k])
          && (forall k :: k in w.fields && (k !in {"sources", "destinations", "selectors"} || w.fields[k].Null?) ==>
                k in now.fields))
  }

  lemma {:induction false} KeptEntries(when: seq<Value>) returns (at: seq<nat>)
    ensures Positions(at, |when|) && |KeepOther(when)| == |at|
    ensures forall i :: 0 <= i < |when| ==> (AsksKnown(when[i]) <==> i in at)
    ensures forall j :: 0 <= j < |at| ==> Cleaned(when[at[j]], KeepOther(when)[j])
    decreases |when|
  {
    at := [];
    if when != [] {
      var n := |when| - 1;
      var init, w := when[..n], when[n];
      assert when == init + [w];
      KeepOtherAppend(init, w);
      at := KeptEntries(init);
      KnownIsOther(w);
      forall i | 0 <= i < n ensures AsksKnown(when[i]) <==> i in at { assert when[i] == init[i]; }
      if HasOther(w) { at := at + [n]; }
    }
  }

  lemma KnownIsOther(w: Value)
    ensures AsksKnown(w) <==> HasOther(w)
    ensures Cleaned(w, WithoutLegacy(w))
  {
    StrippedMatches(w, _ => true);
    if w.Obj? && HasOther(w) {
      var k :| k in w.fields && !w.fields[k].Null? && !LegacyKey(k);
      assert k in Fields(Known(w));
    }
  }

  /** The when list of a role's rule, if any entry of it asks for something 3.0 knows: those entries, in order and
      cleaned, and no other. Otherwise the rule is left as it is. */
  lemma WhenIsCleaned(rule: Object) returns (at: seq<nat>)
    ensures var when, now := WhenOf(rule), WhenOf(FixQualifiers(rule));
      && Positions(at, |when|)
      && (forall i :: 0 <= i < |when| ==> (AsksKnown(when[i]) <==> i in at))
      && (at == [] ==> FixQualifiers(rule) == rule)
      && (at != [] ==> |now| == |at| && forall j :: 0 <= j < |at| ==> Cleaned(when[at[j]], now[j]))
  {
    at := KeptEntries(WhenOf(rule));
    assert WhenOf(FixQualifiers(rule)) == FixWhen(WhenOf(rule));
  }

  /** A kept rule lists no type that 3.0 renames or removes. */
  lemma TypesAreCurrent(reg: Registry, rule: Object, role: bool)
    requires Settled(reg) && !Drops(reg, rule)
    ensures forall t :: t in TypesOf(FixRule(reg, rule, role)) ==> t !in reg.successors && t !in reg.removed
  {
    var types := TypesOf(rule);
    RewriteMeans(reg, types);
    StringsOfValues(Rewrite(reg, types));
    RewriteNone(reg);
    assert TypesOf(FixTypes(reg, rule)) == Rewrite(reg, types);
    assert TypesOf(FixRule(reg, rule, role)) == TypesOf(FixTypes(reg, rule));
  }

  /** A rule with nothing to rewrite is left as it is, whatever else its lists hold. */
  lemma CurrentRuleStays(reg: Registry, rule: Object, role: bool)
    requires Distinct(TypesOf(rule)) && forall t :: t in TypesOf(rule) ==> t !in reg.successors && t !in reg.removed
    requires role ==> forall w :: w in WhenOf(rule) ==> Clean(w) && AsksKnown(w)
    ensures FixRule(reg, rule, role) == rule && !Drops(reg, rule)
  {
    var types := TypesOf(rule);
    RewriteKeeps(reg, types, |types|);
    assert types[..|types|] == types;
    if role { CleanWhenStays(WhenOf(rule)); }
  }

  lemma {:induction false} CleanWhenStays(when: seq<Value>)
    requires forall w :: w in when ==> Clean(w) && AsksKnown(w)
    ensures KeepOther(when) == when
    decreases |when|
  {
    if when != [] {
      var w := when[0];
      KnownIsOther(w);
      assert w in when && forall x :: x in when[1..] ==> x in when;
      CleanWhenStays(when[1..]);
      if w.Obj? { assert WithoutLegacy(w).fields == w.fields; }
    }
  }

  /** A kept rule with its own fix; all its other fields are as they were. */
  ghost predicate Fixed(reg: Registry, role: bool, was: Value, now: Value) {
    if was.Obj? then
      && now == Obj(FixRule(reg, was.fields, role))
      && now.fields - {"types", "when"} == was.fields - {"types", "when"}
    else now == was
  }

  predicate Dropped(reg: Registry, r: Value) {
    r.Obj? && Drops(reg, r.fields)
  }

  /** The rules of a scanned role are those that were not dropped, in order, each with its own fix. */
  lemma {:induction false} RulesInOrder(reg: Registry, rules: seq<Value>, role: bool) returns (at: seq<nat>)
    ensures Positions(at, |rules|) && |FixRules(reg, rules, role)| == |at|
    ensures forall i :: 0 <= i < |rules| ==> (i in at <==> !Dropped(reg, rules[i]))
    ensures forall j :: 0 <= j < |at| ==> Fixed(reg, role, rules[at[j]], FixRules(reg, rules, role)[j])
    decreases |rules|
  {
    hide Drops, Fixed, FixRule;
    at := [];
    if rules != [] {
      var n := |rules| - 1;
      var init, r := rules[..n], rules[n];
      at := RulesInOrder(reg, init, role);
      forall i | 0 <= i < n ensures i in at <==> !Dropped(reg, rules[i]) { assert rules[i] == init[i]; }
      FixedAlone(reg, role, r);
      if !Dropped(reg, r) { at := at + [n]; }
    }
  }

  lemma FixedAlone(reg: Registry, role: bool, r: Value)
    ensures Fixed(reg, role, r, if r.Obj? then Obj(FixRule(reg, r.fields, role)) else r)
  {
    if r.Obj? { OtherFieldsStay(reg, r.fields, role); }
  }

  lemma OtherFieldsStay(reg: Registry, rule: Object, role: bool)
    ensures FixRule(reg, rule, role) - {"types", "when"} == rule - {"types", "when"}
  {
    hide Rewrite, KeepOther;
  }

  // ---- idempotence ---------------------------------------------------------------

  lemma {:induction false} KeepOtherIdempotent(when: seq<Value>)
    ensures KeepOther(KeepOther(when)) == KeepOther(when)
  {
    if when != [] {
      KeepOtherIdempotent(when[1..]);
      if HasOther(when[0]) {
        StrippedMatches(when[0], _ => true);
        assert KeepOther(when) == [WithoutLegacy(when[0])] + KeepOther(when[1..]);
        assert KeepOther(when)[1..] == KeepOther(when[1..]);
        StrippedOnce(when[0]);
      } else {
        assert KeepOther(when) == KeepOther(when[1..]);
      }
    }
  }

  lemma StrippedOnce(w: Value)
    ensures WithoutLegacy(WithoutLegacy(w)) == WithoutLegacy(w)
  {
  }

  lemma FixRuleIdempotent(reg: Registry, rule: Object, role: bool)
    requires Settled(reg) && !Drops(reg, rule)
    ensures !Drops(reg, FixRule(reg, rule, role)) &&
              FixRule(reg, FixRule(reg, rule, role), role) == FixRule(reg, rule, role)
  {
    hide Rewrite, KeepOther;
    var types, when := TypesOf(rule), WhenOf(rule);
    var typed, fixed := FixTypes(reg, rule), FixRule(reg, rule, role);
    RewriteIdempotent(reg, types);
    StringsOfValues(Rewrite(reg, types));
    assert TypesOf(typed) == Rewrite(reg, types) && WhenOf(typed) == when;
    KeepOtherIdempotent(when);
    assert TypesOf(fixed) == TypesOf(typed);
    assert WhenOf(fixed) == if role then FixWhen(when) else when;
    RewriteNone(reg);
    assert FixTypes(reg, fixed) == fixed;
    assert FixWhen(FixWhen(when)) == FixWhen(when);
  }

  lemma {:induction false} FixRulesIdempotent(reg: Registry, rules: seq<Value>, role: bool)
    requires Settled(reg)
    ensures FixRules(reg, FixRules(reg, rules, role), role) == FixRules(reg, rules, role)
    decreases |rules|
  {
    hide FixRule, Drops;
    if rules != [] {
      var n := |rules| - 1;
      var init, r := rules[..n], rules[n];
      FixRulesIdempotent(reg, init, role);
      var kept, all := FixRules(reg, init, role), FixRules(reg, rules, role);
      if !r.Obj? {
        assert all[..|all| - 1] == kept;
      } else if !Drops(reg, r.fields) {
        FixRuleIdempotent(reg, r.fields, role);
        assert all[..|all| - 1] == kept;
      }
    }
  }

  /** Scanning a scanned role changes nothing. */
  lemma ScanIdempotent(reg: Registry, rules: seq<Value>, role: bool)
    requires Settled(reg)
    ensures Scan(reg, Scan(reg, rules, role), role) == Scan(reg, rules, role)
  {
    hide FixRules;
    FixRulesIdempotent(reg, rules, role);
  }

  // ---- the tables of Kuma 3.0 -----------------------------------------------------

  const KUMA_V3 := Registry(
    map["Timeout" := "MeshTimeout", "CircuitBreaker" := "MeshCircuitBreaker", "Retry" := "MeshRetry",
        "HealthCheck" := "MeshHealthCheck", "TrafficLog" := "MeshAccessLog",
        "TrafficPermission" := "MeshTrafficPermission", "FaultInjection" := "MeshFaultInjection",
        "RateLimit" := "MeshRateLimit", "TrafficTrace" := "MeshTrace", "ProxyTemplate" := "MeshProxyPatch",
        "ExternalService" := "MeshExternalService", "OPAPolicy" := "MeshOPA"],
    {"TrafficRoute", "VirtualOutbound", "MeshGateway", "MeshGatewayRoute", "MeshGatewayInstance", "MeshGatewayConfig",
     "ZoneIngress", "ZoneEgress", "ZoneIngressInsight", "ZoneEgressInsight", "ZoneIngressOverview",
     "ZoneEgressOverview", "ServiceInsight", "ServiceOverview", "MeshGlobalRateLimit"})

  /** Old names do not start with M, successors do, and no successor is a MeshG... type. */
  predicate MeshType(t: string) {
    |t| > 4 && t[0] == 'M'
  }

  lemma OldNames(t: string)
    requires t in KUMA_V3.successors
    ensures !MeshType(t)
  {
  }

  lemma NewNames(t: string)
    requires t in KUMA_V3.successors
    ensures MeshType(KUMA_V3.successors[t]) && KUMA_V3.successors[t][4] != 'G'
  {
  }

  lemma RemovedNames(t: string)
    requires t in KUMA_V3.removed
    ensures MeshType(t) ==> t[4] == 'G'
  {
  }

  lemma KumaV3Settled()
    ensures Settled(KUMA_V3)
  {
    hide KUMA_V3;
    forall t | t in KUMA_V3.successors
      ensures KUMA_V3.successors[t] !in KUMA_V3.successors && KUMA_V3.successors[t] !in KUMA_V3.removed
    {
      var s := KUMA_V3.successors[t];
      NewNames(t);
      if s in KUMA_V3.successors { OldNames(s); }
      if s in KUMA_V3.removed { RemovedNames(s); }
    }
  }
}
