/** Inline OpenTelemetry endpoints (v3_mesh.go): each becomes a reference, by generated name, to a generated
    MeshOpenTelemetryBackend that holds the endpoint. */
module OtelBackends {
  import opened Text
  import opened Json
  import opened TagKeys

  // ---- endpoints -------------------------------------------------------------

  function FirstIndex(s: string, c: char): int {
    if s == "" then -1
    else if s[0] == c then 0
    else var i := FirstIndex(s[1..], c); if i == -1 then -1 else i + 1
  }

  datatype HostPort = HostPort(host: string, port: int)

  /** net.SplitHostPort; None is any of its errors. */
  function SplitHostPort(s: string): Option<(string, string)> {
    var i := LastIndex(s, ":");
    if i < 0 then None
    else if s[0] == '[' then
      var end := FirstIndex(s, ']');
      if end != i - 1 || end < 1 || '[' in s[1..] || ']' in s[end + 1..] then None
      else Some((s[1..end], s[i + 1..]))
    else if ':' in s[..i] || '[' in s || ']' in s then None
    else Some((s[..i], s[i + 1..]))
  }

  /** parseOtelHostPort. */
  function Parse(ep: string): Option<HostPort> {
    if '/' in ep then None
    else
      var split := SplitHostPort(ep);
      if split.None? || split.value.0 == "" then None
      else
        var port := Atoi(split.value.1);
        if port.None? || port.value < 1 || port.value > 65535 then None
        else Some(HostPort(split.value.0, port.value))
  }

  lemma ParsePlain(host: string, port: nat)
    requires host != "" && 1 <= port <= 65535
    requires forall c :: c in host ==> c !in ":/[]"
    ensures Parse(host + ":" + Decimal(port)) == Some(HostPort(host, port))
  {
    var ep := host + ":" + Decimal(port);
    assert ":" == [':'];
    LastIndexOfChar(host, ':', Decimal(port));
    assert ep[..|host|] == host && ep[|host| + 1..] == Decimal(port);
    AtoiDecimal(port);
    assert forall c :: c in ep ==> c in host || c == ':' || IsDigit(c);
    assert ep[0] == host[0] && host[0] in host;
  }

  /** The two spellings of an endpoint: a host without a colon, or a bracketed one. */
  predicate Spells(ep: string, host: string, numeral: string) {
    && (forall c :: c in numeral ==> c !in ":[]") && (forall c :: c in host ==> c !in "[]")
    && (ep == "[" + host + "]:" + numeral || (ep == host + ":" + numeral && ':' !in host))
  }

  ghost predicate SpellsPort(ep: string, host: string, port: int) {
    exists numeral :: Spells(ep, host, numeral) && Atoi(numeral) == Some(port)
  }

  /** Exactly these parse: no slash, a host, and a port between 1 and 65535. */
  lemma ParseMeans(ep: string, host: string, port: int)
    ensures Parse(ep) == Some(HostPort(host, port)) <==>
              '/' !in ep && host != "" && 1 <= port <= 65535 && SpellsPort(ep, host, port)
  {
    hide Atoi, SplitHostPort, Spells;
    if host != "" && SpellsPort(ep, host, port) {
      var numeral :| Spells(ep, host, numeral) && Atoi(numeral) == Some(port);
      SpelledSplits(ep, host, numeral);
    }
    if Parse(ep) == Some(HostPort(host, port)) { SplitSpells(ep); }
  }

  lemma SplitSpells(ep: string)
    requires SplitHostPort(ep).Some?
    ensures var (host, numeral) := SplitHostPort(ep).value; Spells(ep, host, numeral)
  {
    assert ":" == [':'];
    var i := LastIndex(ep, ":");
    var numeral := ep[i + 1..];
    assert ep[i..i + 1] == ":";
    assert ep == ep[..i] + ":" + numeral;
    forall j | i < j < |ep| ensures ep[j] != ':' { SingleCharOccurs(ep, ':', j); }
    if ep[0] == '[' {
      var end := FirstIndex(ep, ']');
      FirstIndexMeans(ep, ']');
      assert ep[..i] == "[" + ep[1..end] + "]";
      forall c | c in ep[1..end] ensures c !in "[]" { assert c in ep[1..]; }
      forall c | c in numeral ensures c !in ":[]" { assert c in ep[1..] && c in ep[end + 1..]; }
    }
  }

  lemma {:induction false} FirstIndexMeans(s: string, c: char)
    ensures var i := FirstIndex(s, c);
      -1 <= i < |s| && (i >= 0 ==> s[i] == c && c !in s[..i])
  {
    if s != "" && s[0] != c { FirstIndexMeans(s[1..], c); }
  }

  lemma SpelledSplits(ep: string, host: string, numeral: string)
    requires Spells(ep, host, numeral) && host != ""
    ensures SplitHostPort(ep) == Some((host, numeral))
  {
    assert ":" == [':'];
    if ep == "[" + host + "]:" + numeral {
      BracketedSplits(ep, host, numeral);
    } else {
      LastIndexOfChar(host, ':', numeral);
      assert ep[..|host|] == host && ep[|host| + 1..] == numeral && ep[0] == host[0] && host[0] in host;
      assert forall c :: c in ep ==> c in host || c == ':' || c in numeral;
    }
  }

  lemma BracketedSplits(ep: string, host: string, numeral: string)
    requires (forall c :: c in numeral ==> c !in ":[]") && (forall c :: c in host ==> c !in "[]")
    requires ep == "[" + host + "]:" + numeral && host != ""
    ensures SplitHostPort(ep) == Some((host, numeral))
  {
    hide LastIndex, FirstIndex;
    var front, back := "[" + host, ":" + numeral;
    assert ":" == [':'] && |front| == |host| + 1;
    LastIndexOfChar(front + "]", ':', numeral);
    assert ep == front + "]" + ":" + numeral;
    FirstIndexOf(front, ']', back);
    assert ep == front + [']'] + back;
    assert ep[1..|host| + 1] == host && ep[|host| + 3..] == numeral;
    assert ep[|host| + 2..] == ":" + numeral && ep[1..] == host + "]:" + numeral;
  }

  lemma {:induction false} FirstIndexOf(a: string, c: char, b: string)
    requires c !in a
    ensures FirstIndex(a + [c] + b, c) == |a|
    decreases |a|
  {
    var s := a + [c] + b;
    if a != "" {
      assert s[0] == a[0] && a[0] in a && s[1..] == a[1..] + [c] + b;
      FirstIndexOf(a[1..], c, b);
    }
  }

  // ---- generated names -------------------------------------------------------

  const MAX_NAME := 63

  predicate LowerAlnum(c: char) { 'a' <= c <= 'z' || IsDigit(c) }

  /** Lower-cased, with each run of characters outside [a-z0-9-] as one hyphen. */
  function Clean(s: string, inRun: bool): (r: string)
    ensures forall c :: c in r ==> LowerAlnum(c) || c == '-'
  {
    if s == "" then ""
    else
      var c := LowerChar(s[0]);
      if LowerAlnum(c) || c == '-' then [c] + Clean(s[1..], false)
      else (if inRun then "" else "-") + Clean(s[1..], true)
  }

  function TrimLeft(s: string): (r: string)
    ensures r != "" ==> r[0] != '-'
    ensures forall c :: c in r ==> c in s
  {
    if s != "" && s[0] == '-' then TrimLeft(s[1..]) else s
  }

  function TrimRight(s: string): (r: string)
    ensures r <= s && (r != "" ==> r[|r| - 1] != '-')
    ensures s != "" && s[0] != '-' ==> r != ""
  {
    if s != "" && s[|s| - 1] == '-' then TrimRight(s[..|s| - 1]) else s
  }

  function Base(policyName: string): (r: string)
    ensures r != "" && r[0] != '-' && r[|r| - 1] != '-' && forall c :: c in r ==> LowerAlnum(c) || c == '-'
  {
    var base := TrimRight(TrimLeft(Clean(policyName, false)));
    if base == "" then "policy" else base
  }

  function Tail(i: nat): string {
    if i == 0 then "otel" else Decimal(i + 1)
  }

  function Suffix(i: nat): string {
    if i == 0 then "-otel" else "-otel-" + Decimal(i + 1)
  }

  /** As much of the policy's name as fits beside a suffix of this length. */
  function Front(policyName: string, taken: nat): string {
    var base := Base(policyName);
    var room := if taken > MAX_NAME then 0 else MAX_NAME - taken;
    if |base| > room then TrimRight(base[..room]) else base
  }

  /** motbName: the i-th backend generated for a policy. */
  function BackendName(policyName: string, i: nat): string {
    Front(policyName, |Suffix(i)|) + Suffix(i)
  }

  // ---- what is kept of the policy's name ---------------------------------------

  predicate NameChar(c: char) {
    LowerAlnum(LowerChar(c)) || LowerChar(c) == '-'
  }

  /** Cleaning only lowers characters that a name may hold. */
  lemma {:induction false} CleanPlain(s: string, inRun: bool)
    requires forall c :: c in s ==> NameChar(c)
    ensures Clean(s, inRun) == ToLower(s)
  {
    if s != "" {
      assert s[0] in s && forall c :: c in s[1..] ==> c in s;
      CleanPlain(s[1..], false);
      assert ToLower(s) == [LowerChar(s[0])] + ToLower(s[1..]);
    }
  }

  /** And puts one hyphen for each run of other characters. */
  lemma {:induction false} CleanRun(front: string, run: string, rest: string, inRun: bool)
    requires run != "" && (forall c :: c in run ==> !NameChar(c)) && (forall c :: c in front ==> NameChar(c))
    requires rest != "" ==> NameChar(rest[0])
    requires front == "" ==> !inRun
    ensures Clean(front + run + rest, inRun) == ToLower(front) + "-" + Clean(rest, false)
    decreases |front|
  {
    var s := front + run + rest;
    if front != "" {
      assert front[0] in front && forall c :: c in front[1..] ==> c in front;
      assert s[0] == front[0] && s[1..] == front[1..] + run + rest;
      CleanRun(front[1..], run, rest, false);
      assert ToLower(front) == [LowerChar(front[0])] + ToLower(front[1..]);
    } else {
      assert run[0] in run && forall c :: c in run[1..] ==> c in run;
      assert s[0] == run[0] && s[1..] == run[1..] + rest;
      InRun(run[1..], rest);
      assert ToLower(front) == "";
    }
  }

  lemma {:induction false} InRun(run: string, rest: string)
    requires (forall c :: c in run ==> !NameChar(c)) && (rest != "" ==> NameChar(rest[0]))
    ensures Clean(run + rest, true) == Clean(rest, false)
    decreases |run|
  {
    if run != "" {
      assert run[0] in run && forall c :: c in run[1..] ==> c in run;
      assert (run + rest)[0] == run[0] && (run + rest)[1..] == run[1..] + rest;
      InRun(run[1..], rest);
    } else {
      assert run + rest == rest;
    }
  }

  predicate Hyphens(s: string) {
    forall c :: c in s ==> c == '-'
  }

  lemma {:induction false} TrimmedLeft(s: string) returns (left: string)
    ensures Hyphens(left) && s == left + TrimLeft(s)
  {
    left := "";
    if s != "" && s[0] == '-' {
      left := TrimmedLeft(s[1..]);
      assert s == "-" + s[1..] && "-" + (left + TrimLeft(s[1..])) == "-" + left + TrimLeft(s[1..]);
      left := "-" + left;
    }
  }

  lemma {:induction false} TrimmedRight(s: string) returns (right: string)
    ensures Hyphens(right) && s == TrimRight(s) + right
  {
    right := "";
    if s != "" && s[|s| - 1] == '-' {
      right := TrimmedRight(s[..|s| - 1]);
      assert s == s[..|s| - 1] + "-" && TrimRight(s) + right + "-" == TrimRight(s) + (right + "-");
      right := right + "-";
    }
  }

  /** The base of a generated name is the cleaned policy name without the hyphens at its ends, and "policy" when nothing
      else is left. */
  lemma BaseIsCleanName(policyName: string) returns (left: string, right: string)
    ensures Hyphens(left) && Hyphens(right)
    ensures var clean := Clean(policyName, false);
      if Hyphens(clean) then Base(policyName) == "policy" else clean == left + Base(policyName) + right
  {
    var clean := Clean(policyName, false);
    left := TrimmedLeft(clean);
    right := TrimmedRight(TrimLeft(clean));
    var base := TrimRight(TrimLeft(clean));
    assert clean == left + (base + right) == left + base + right;
    if base != "" { assert base[0] in clean && base[|base| - 1] != '-'; }
  }

  /** Of that as much is kept as fits: all of it, or the longest part that does not end in a hyphen. */
  lemma FrontIsLongest(policyName: string, taken: nat)
    ensures var base, head := Base(policyName), Front(policyName, taken);
      && head <= base && (|base| + taken <= MAX_NAME ==> head == base)
      && (|base| + taken > MAX_NAME && taken <= MAX_NAME ==>
            |head| + taken <= MAX_NAME && Hyphens(base[|head|..MAX_NAME - taken]))
  {
    hide Base;
    var base := Base(policyName);
    if |base| + taken > MAX_NAME && taken <= MAX_NAME {
      var cut := base[..MAX_NAME - taken];
      var right := TrimmedRight(cut);
      assert base[|TrimRight(cut)|..MAX_NAME - taken] == right;
    }
  }

  /** In particular a short policy name that can be a label is kept as it is. */
  lemma ShortNameKept(policyName: string, i: nat)
    requires policyName != "" && forall c :: c in policyName ==> LowerAlnum(c) || c == '-'
    requires policyName[0] != '-' && policyName[|policyName| - 1] != '-'
    requires |policyName| + |Suffix(i)| <= MAX_NAME
    ensures BackendName(policyName, i) == policyName + (if i == 0 then "-otel" else "-otel-" + Decimal(i + 1))
  {
    hide Decimal, Base, TrimRight;
    PlainBase(policyName);
  }

  lemma PlainBase(policyName: string)
    requires policyName != "" && forall c :: c in policyName ==> LowerAlnum(c) || c == '-'
    requires policyName[0] != '-' && policyName[|policyName| - 1] != '-'
    ensures Base(policyName) == policyName
  {
    hide Clean;
    forall c | c in policyName ensures NameChar(c) && LowerChar(c) == c {}
    hide LowerChar;
    CleanPlain(policyName, false);
    forall i | 0 <= i < |policyName| ensures ToLower(policyName)[i] == policyName[i] {
      assert policyName[i] in policyName;
    }
    assert ToLower(policyName) == policyName;
  }

  /** Distinct indexes give distinct names, whatever was cut off the policy's name. */
  lemma BackendNamesDiffer(policyName: string, i: nat, j: nat)
    requires i != j
    ensures BackendName(policyName, i) != BackendName(policyName, j)
  {
    hide BackendName, Tail;
    NameEndsInTail(policyName, i);
    NameEndsInTail(policyName, j);
    TailsDiffer(i, j);
  }

  /** Over all policies: two generated names are the same if and only if the index is, and what was kept of the two
      policies' names. */
  lemma BackendNamesEqual(p: string, q: string, i: nat, j: nat)
    ensures BackendName(p, i) == BackendName(q, j) <==> i == j && Front(p, |Suffix(i)|) == Front(q, |Suffix(i)|)
  {
    hide Front, Suffix, Tail;
    if BackendName(p, i) == BackendName(q, j) {
      NameEndsInTail(p, i);
      NameEndsInTail(q, j);
      if i != j { TailsDiffer(i, j); }
      SameSuffix(Front(p, |Suffix(i)|), Front(q, |Suffix(j)|), Suffix(i));
    }
  }

  lemma SameSuffix(a: string, b: string, suffix: string)
    ensures a + suffix == b + suffix ==> a == b
  {
    assert (a + suffix)[..|a|] == a && (b + suffix)[..|b|] == b;
  }

  /** Two policy names that differ only in a character a label cannot hold share all their backend names. */
  lemma NamesCanClash(i: nat)
    ensures BackendName("a.b", i) == BackendName("a-b", i)
  {
    hide TrimRight, Front;
    assert LowerAlnum('a') && LowerAlnum('b') && !LowerAlnum('.');
    CleanTwo();
    SameBase("a.b", "a-b", |Suffix(i)|);
  }

  lemma CleanTwo()
    ensures Clean("a.b", false) == "a-b" == Clean("a-b", false)
  {
    assert "a.b"[1..] == ".b" && ".b"[1..] == "b" && "b"[1..] == "" && "a-b"[1..] == "-b" && "-b"[1..] == "b";
    assert Clean("", false) == "";
    assert Clean("b", false) == "b" && Clean("b", true) == "b";
    assert Clean(".b", false) == "-b" && Clean("-b", false) == "-b";
  }

  lemma SameBase(p: string, q: string, taken: nat)
    requires Clean(p, false) == Clean(q, false)
    ensures Front(p, taken) == Front(q, taken)
  {
  }

  lemma TailsDiffer(i: nat, j: nat)
    requires i != j
    ensures Tail(i) != Tail(j)
  {
    hide IsDigit;
    WordIsNoNumber(i + 1);
    WordIsNoNumber(j + 1);
    if Decimal(i + 1) == Decimal(j + 1) { DecimalInjective(i + 1, j + 1); }
  }

  lemma WordIsNoNumber(n: nat)
    ensures Decimal(n) != "otel"
  {
    assert !IsDigit("otel"[0]) && IsDigit(Decimal(n)[0]);
  }

  lemma NameEndsInTail(policyName: string, i: nat)
    ensures var name := BackendName(policyName, i); var h := LastIndex(name, "-");
            h >= 0 && name[h + 1..] == Tail(i)
  {
    hide Front, Decimal;
    var front := Front(policyName, |Suffix(i)|);
    var head := if i == 0 then front else front + "-otel";
    assert "-" == ['-'];
    SuffixEndsInTail(front, i);
    assert BackendName(policyName, i) == head + "-" + Tail(i);
    TailHasNoHyphen(i);
    LastIndexOfChar(head, '-', Tail(i));
  }

  lemma SuffixEndsInTail(front: string, i: nat)
    ensures front + Suffix(i) == (if i == 0 then front else front + "-otel") + "-" + Tail(i)
  {
    hide Decimal;
    assert i > 0 ==> Suffix(i) == "-otel" + "-" + Tail(i);
  }

  lemma TailHasNoHyphen(i: nat)
    ensures '-' !in Tail(i)
  {
    assert forall c :: c in Decimal(i + 1) ==> IsDigit(c);
  }

  lemma FrontIsLabel(policyName: string, taken: nat)
    requires taken < MAX_NAME
    ensures var head := Front(policyName, taken);
      && 1 <= |head| <= MAX_NAME - taken && LowerAlnum(head[0]) && forall c :: c in head ==> LowerAlnum(c) || c == '-'
  {
    hide Base, TrimRight;
    var base, head := Base(policyName), Front(policyName, taken);
    assert head <= base && head[0] == base[0] && base[0] in base;
  }

  lemma SuffixIsLabel(i: nat)
    ensures var suffix := Suffix(i);
      && |suffix| <= 6 + |Decimal(i + 1)| && suffix != "" && LowerAlnum(suffix[|suffix| - 1])
      && forall c :: c in suffix ==> LowerAlnum(c) || c == '-'
  {
    hide Decimal;
    var suffix := Suffix(i);
    assert i > 0 ==> suffix[|suffix| - 1] == Decimal(i + 1)[|Decimal(i + 1)| - 1];
    assert i > 0 ==> suffix[|suffix| - 1] in Decimal(i + 1);
  }

  /** Section 2.3.4 of RFC 1035: at most 63 characters; and both ends alphanumeric. (An index that does not
      fit beside a name needs more than fifty digits.) */
  lemma BackendNameIsLabel(policyName: string, i: nat)
    requires |Decimal(i + 1)| <= 50
    ensures var name := BackendName(policyName, i);
      && 1 <= |name| <= MAX_NAME && LowerAlnum(name[0]) && LowerAlnum(name[|name| - 1])
      && forall c :: c in name ==> LowerAlnum(c) || c == '-'
  {
    hide Front, Suffix, LowerAlnum;
    SuffixIsLabel(i);
    FrontIsLabel(policyName, |Suffix(i)|);
  }

  // ---- the rewrite -----------------------------------------------------------

  const OTEL := "openTelemetry"

  function EndpointOf(ot: Object): Option<string> {
    var ep := StrOr(ot, "endpoint");
    if ep == "" || "backendRef" in ot || Parse(ep).None? then None else Some(ep)
  }

  function RefTo(name: string): Value {
    Obj(map["kind" := Str("MeshOpenTelemetryBackend"),
            "labels" := Obj(map[DISPLAY_NAME := Str(name)])])
  }

  function RewriteMap(ot: Object, backendFor: map<string, string>): Object {
    var ep := EndpointOf(ot);
    if ep.Some? && ep.value in backendFor then
      (ot - {"endpoint"})["backendRef" := RefTo(backendFor[ep.value])]
    else ot
  }

  /** The document with every convertible openTelemetry map rewritten. */
  function Rewrite(v: Value, backendFor: map<string, string>): Value {
    match v
    case Obj(fields) =>
      Obj(map k | k in fields ::
            if k != OTEL then Rewrite(fields[k], backendFor)
            else if fields[k].Obj? then Obj(RewriteMap(fields[k].fields, backendFor))
            else fields[k])
    case Arr(items) => Arr(seq(|items|, i requires 0 <= i < |items| => Rewrite(items[i], backendFor)))
    case _ => v
  }

  /** The endpoints the rewrite meets. */
  ghost predicate Holds(v: Value, ep: string) {
    match v
    case Obj(fields) =>
      || (OTEL in fields && fields[OTEL].Obj? && EndpointOf(fields[OTEL].fields) == Some(ep))
      || exists k :: k in fields && k != OTEL && Holds(fields[k], ep)
    case Arr(items) => exists i :: 0 <= i < |items| && Holds(items[i], ep)
    case _ => false
  }

  ghost predicate Known(v: Value, backendFor: map<string, string>) {
    forall ep :: Holds(v, ep) ==> ep in backendFor
  }

  /** Only endpoints that v holds were added. */
  ghost predicate AddedFrom(less: map<string, string>, more: map<string, string>, v: Value) {
    forall ep :: ep in more ==> ep in less || Holds(v, ep)
  }

  lemma NothingAdded(backendFor: map<string, string>, v: Value)
    ensures AddedFrom(backendFor, backendFor, v)
  {
  }

  lemma AddedFromChild(less: map<string, string>, mid: map<string, string>, more: map<string, string>, v: Value,
                       k: string)
    requires v.Obj? && k in v.fields && k != OTEL
    requires AddedFrom(less, mid, v) && AddedFrom(mid, more, v.fields[k])
    ensures AddedFrom(less, more, v)
  {
  }

  lemma AddedFromItem(less: map<string, string>, mid: map<string, string>, more: map<string, string>, v: Value, i: nat)
    requires v.Arr? && i < |v.items|
    requires AddedFrom(less, mid, v) && AddedFrom(mid, more, v.items[i])
    ensures AddedFrom(less, more, v)
  {
  }

  /** Backends generated later do not change what was already rewritten. */
  lemma {:induction false} RewriteStable(v: Value, less: map<string, string>, more: map<string, string>)
    requires Known(v, less) && Extends(less, more)
    ensures Rewrite(v, more) == Rewrite(v, less)
    decreases v
  {
    match v
    case Obj(fields) =>
      forall k | k in fields
        ensures k != OTEL ==> Rewrite(fields[k], more) == Rewrite(fields[k], less)
        ensures k == OTEL && fields[k].Obj? ==> RewriteMap(fields[k].fields, more) == RewriteMap(fields[k].fields, less)
      {
        if k != OTEL {
          forall ep | Holds(fields[k], ep) ensures ep in less { assert Holds(v, ep); }
          RewriteStable(fields[k], less, more);
        } else if fields[k].Obj? {
          var ep := EndpointOf(fields[k].fields);
          if ep.Some? { assert Holds(v, ep.value); }
        }
      }
      assert Rewrite(v, more).fields == Rewrite(v, less).fields;
    case Arr(items) =>
      forall i | 0 <= i < |items| ensures Rewrite(items[i], more) == Rewrite(items[i], less) {
        forall ep | Holds(items[i], ep) ensures ep in less { assert Holds(v, ep); }
        RewriteStable(items[i], less, more);
      }
      assert Rewrite(v, more).items == Rewrite(v, less).items;
    case _ =>
  }

  /** The state convertInlineOtelEndpointsForV3 keeps per policy while walking its document. */
  class Rewriter {
    const policyName: string
    var backendFor: map<string, string>
    var order: seq<string>

    ghost predicate Valid()
      reads this
    {
      && Distinct(order) && Elems(order) == backendFor.Keys
      && forall i :: 0 <= i < |order| ==>
           Parse(order[i]).Some? && backendFor[order[i]] == BackendName(policyName, i)
    }

    constructor (name: string)
      ensures Valid() && policyName == name && backendFor == map[]
    {
      policyName, backendFor, order := name, map[], [];
    }

    /** The callback of walkOtelMaps. */
    method Visit(ot: Object) returns (out: Object)
      requires Valid()
      modifies this
      ensures Valid() && Extends(old(backendFor), backendFor)
      ensures EndpointOf(ot).Some? ==> EndpointOf(ot).value in backendFor
      ensures forall ep :: ep in backendFor ==> ep in old(backendFor) || EndpointOf(ot) == Some(ep)
      ensures out == RewriteMap(ot, backendFor)
    {
      hide Parse, BackendName, RefTo;
      var ep := StrOr(ot, "endpoint");
      if ep == "" { return ot; }
      if "backendRef" in ot { return ot; }
      if Parse(ep).None? { return ot; }
      if ep !in backendFor {
        assert ep in order <==> ep in Elems(order);
        backendFor := backendFor[ep := BackendName(policyName, |order|)];
        assert Elems(order + [ep]) == Elems(order) + {ep};
        order := order + [ep];
      }
      out := (ot - {"endpoint"})["backendRef" := RefTo(backendFor[ep])];
    }

    /** walkOtelMaps. */
    method Walk(v: Value) returns (out: Value)
      requires Valid()
      modifies this
      ensures Valid() && Extends(old(backendFor), backendFor)
      ensures Known(v, backendFor) && out == Rewrite(v, backendFor) && AddedFrom(old(backendFor), backendFor, v)
      decreases v, 1
    {
      match v
      case Obj(fields) => out := WalkFields(v);
      case Arr(items) => out := WalkItems(v);
      case _ => out := v;
    }

    method StartFields(fields: Object) returns (out: Object)
      requires Valid()
      modifies this
      ensures Valid() && Extends(old(backendFor), backendFor)
      ensures out.Keys == fields.Keys * {OTEL}
      ensures OTEL in out ==> FieldDone(OTEL, fields[OTEL], out[OTEL], backendFor)
      ensures AddedFrom(old(backendFor), backendFor, Obj(fields))
    {
      hide Valid, EndpointOf, RewriteMap, FieldDone, Known, Rewrite;
      if OTEL !in fields { return map[]; }
      out := map[OTEL := fields[OTEL]];
      if fields[OTEL].Obj? {
        var ot := Visit(fields[OTEL].fields);
        out := map[OTEL := Obj(ot)];
      }
      OtelDone(fields[OTEL], out[OTEL], backendFor);
    }

    /** The openTelemetry map first, then the other fields in any order. */
    method WalkFields(v: Value) returns (out: Value)
      requires Valid() && v.Obj?
      modifies this
      ensures Valid() && Extends(old(backendFor), backendFor)
      ensures Known(v, backendFor) && out == Rewrite(v, backendFor) && AddedFrom(old(backendFor), backendFor, v)
      decreases v, 0
    {
      hide Valid, FieldDone, Known, Rewrite, Extends, AddedFrom;
      var fields := v.fields;
      var outFields := StartFields(fields);
      var todo := fields.Keys - {OTEL};
      while todo != {}
        invariant Valid() && Extends(old(backendFor), backendFor) && AddedFrom(old(backendFor), backendFor, v)
        invariant todo <= fields.Keys && OTEL !in todo
        invariant forall l :: l in outFields <==> l in fields && l !in todo
        invariant forall k :: k in outFields ==> FieldDone(k, fields[k], outFields[k], backendFor)
        decreases |todo|
      {
        var k :| k in todo;
        todo := todo - {k};
        ghost var before := backendFor;
        var child := Walk(fields[k]);
        AllStillDone(fields, outFields, before, backendFor);
        ExtendsTransitive(old(backendFor), before, backendFor);
        AddedFromChild(old(backendFor), before, backendFor, v, k);
        ChildDone(k, fields[k], child, backendFor);
        outFields := outFields[k := child];
      }
      assert outFields.Keys == fields.Keys;
      FieldsDone(v, outFields, backendFor);
      out := Obj(outFields);
    }

    method WalkItems(v: Value) returns (out: Value)
      requires Valid() && v.Arr?
      modifies this
      ensures Valid() && Extends(old(backendFor), backendFor)
      ensures Known(v, backendFor) && out == Rewrite(v, backendFor) && AddedFrom(old(backendFor), backendFor, v)
      decreases v, 0
    {
      hide Valid, AddedFrom;
      var items, outItems := v.items, [];
      NothingAdded(backendFor, v);
      for i := 0 to |items|
        invariant Valid() && Extends(old(backendFor), backendFor) && AddedFrom(old(backendFor), backendFor, v)
        invariant |outItems| == i
        invariant forall j :: 0 <= j < i ==> Known(items[j], backendFor) && outItems[j] == Rewrite(items[j], backendFor)
      {
        ghost var before := backendFor;
        var child := Walk(items[i]);
        AddedFromItem(old(backendFor), before, backendFor, v, i);
        forall j | 0 <= j < i ensures Known(items[j], backendFor) && outItems[j] == Rewrite(items[j], backendFor) {
          RewriteStable(items[j], before, backendFor);
        }
        outItems := outItems + [child];
      }
      out := Arr(outItems);
      assert outItems == Rewrite(v, backendFor).items;
    }
  }

  /** A field the walk is through with. */
  ghost predicate FieldDone(k: string, was: Value, now: Value, backendFor: map<string, string>) {
    if k != OTEL then Known(was, backendFor) && now == Rewrite(was, backendFor)
    else if !was.Obj? then now == was
    else
      && (EndpointOf(was.fields).Some? ==> EndpointOf(was.fields).value in backendFor)
      && now == Obj(RewriteMap(was.fields, backendFor))
  }

  lemma ChildDone(k: string, was: Value, now: Value, backendFor: map<string, string>)
    requires k != OTEL && Known(was, backendFor) && now == Rewrite(was, backendFor)
    ensures FieldDone(k, was, now, backendFor)
  {
  }

  lemma OtelDone(was: Value, now: Value, backendFor: map<string, string>)
    requires !was.Obj? ==> now == was
    requires was.Obj? ==> now == Obj(RewriteMap(was.fields, backendFor))
    requires was.Obj? && EndpointOf(was.fields).Some? ==> EndpointOf(was.fields).value in backendFor
    ensures FieldDone(OTEL, was, now, backendFor)
  {
  }

  lemma StillDone(k: string, was: Value, now: Value, less: map<string, string>, more: map<string, string>)
    requires Extends(less, more) && FieldDone(k, was, now, less)
    ensures FieldDone(k, was, now, more)
  {
    if k != OTEL { RewriteStable(was, less, more); }
  }

  lemma AllStillDone(fields: Object, out: Object, less: map<string, string>, more: map<string, string>)
    requires Extends(less, more) && out.Keys <= fields.Keys
    requires forall k :: k in out ==> FieldDone(k, fields[k], out[k], less)
    ensures forall k :: k in out ==> FieldDone(k, fields[k], out[k], more)
  {
    hide FieldDone, Extends;
    forall k | k in out ensures FieldDone(k, fields[k], out[k], more) {
      StillDone(k, fields[k], out[k], less, more);
    }
  }

  lemma ExtendsTransitive(a: map<string, string>, b: map<string, string>, c: map<string, string>)
    requires Extends(a, b) && Extends(b, c)
    ensures Extends(a, c)
  {
  }

  lemma FieldsDone(v: Value, out: Object, backendFor: map<string, string>)
    requires v.Obj? && out.Keys == v.fields.Keys
    requires forall k :: k in out ==> FieldDone(k, v.fields[k], out[k], backendFor)
    ensures Known(v, backendFor) && Obj(out) == Rewrite(v, backendFor)
  {
    assert OTEL in out ==> FieldDone(OTEL, v.fields[OTEL], out[OTEL], backendFor);
    assert out == Rewrite(v, backendFor).fields;
  }

  /** A generated MeshOpenTelemetryBackend, with protocol grpc: where it lives, and its format. */
  datatype Backend = Backend(name: string, endpoint: HostPort, home: Home)

  datatype Home = Home(mesh: string, namespace: string, universal: bool)

  /** policyMeshName. */
  function MeshName(doc: Object): string {
    if StrOr(doc, "mesh") != "" then StrOr(doc, "mesh") else StrOr(Sub(Sub(doc, "metadata"), "labels"), MESH)
  }

  /** A backend lives with its policy: in its mesh and its format, and on Kubernetes in the system namespace. */
  function HomeOf(doc: Object, systemNS: string): Home {
    Home(MeshName(doc), systemNS, StrOr(doc, "kind") == "")
  }

  /** One backend per endpoint, in order of first appearance. */
  ghost predicate Generated(policyName: string, home: Home, order: seq<string>, backends: seq<Backend>) {
    && Distinct(order) && |backends| == |order|
    && forall i :: 0 <= i < |order| ==>
         Parse(order[i]).Some? && backends[i] == Backend(BackendName(policyName, i), Parse(order[i]).value, home)
  }

  /** otelPolicyKinds. */
  predicate OtelKind(kind: string) {
    kind == "MeshMetric" || kind == "MeshTrace" || kind == "MeshAccessLog"
  }

  /** What the rewrite of one document must give: one backend for each endpoint it holds and for nothing else, and
      the references to them in place. Other documents are left alone. */
  ghost predicate Converts(doc: Object, systemNS: string, out: Value, backends: seq<Backend>) {
    if !OtelKind(KindOf(doc)) then out == Obj(doc) && backends == []
    else exists order, backendFor :: ConvertsBy(doc, systemNS, out, backends, order, backendFor)
  }

  ghost predicate ConvertsBy(doc: Object, systemNS: string, out: Value, backends: seq<Backend>, order: seq<string>,
                             backendFor: map<string, string>)
  {
    && Generated(NameOf(doc), HomeOf(doc, systemNS), order, backends) && Elems(order) == backendFor.Keys
    && (forall ep :: ep in backendFor <==> Holds(Obj(doc), ep))
    && (forall i :: 0 <= i < |order| ==> order[i] in backendFor && backendFor[order[i]] == BackendName(NameOf(doc), i))
    && out == Rewrite(Obj(doc), backendFor)
  }

  /** The work of convertInlineOtelEndpointsForV3 on one document. */
  method ConvertInlineEndpoints(doc: Object, systemNS: string) returns (out: Value, backends: seq<Backend>)
    ensures Converts(doc, systemNS, out, backends)
  {
    hide Parse, BackendName, Rewrite, Holds, OtelKind, NameOf, HomeOf;
    if !OtelKind(KindOf(doc)) { return Obj(doc), []; }
    var r := new Rewriter(NameOf(doc));
    var home := HomeOf(doc, systemNS);
    out := r.Walk(Obj(doc));
    backends := [];
    for i := 0 to |r.order|
      invariant |backends| == i
      invariant forall j :: 0 <= j < i ==>
        backends[j] == Backend(BackendName(NameOf(doc), j), Parse(r.order[j]).value, home)
    {
      var ep := r.order[i];
      assert ep in Elems(r.order);
      backends := backends + [Backend(r.backendFor[ep], Parse(ep).value, home)];
    }
    forall i | 0 <= i < |r.order| ensures r.order[i] in r.backendFor { assert r.order[i] in Elems(r.order); }
    assert ConvertsBy(doc, systemNS, out, backends, r.order, r.backendFor);
  }

  // ---- meaning -----------------------------------------------------------------

  datatype Step = Field(key: string) | Item(index: nat)

  /** The node at a path, where the walk goes: never through an openTelemetry map. */
  function At(v: Value, path: seq<Step>): Option<Value> {
    if path == [] then Some(v)
    else match path[0]
      case Field(k) => if v.Obj? && k in v.fields && k != OTEL then At(v.fields[k], path[1..]) else None
      case Item(i) => if v.Arr? && i < |v.items| then At(v.items[i], path[1..]) else None
  }

  lemma {:induction false} RewriteAt(v: Value, path: seq<Step>, backendFor: map<string, string>)
    ensures var n := At(v, path);
            At(Rewrite(v, backendFor), path) == if n.None? then None else Some(Rewrite(n.value, backendFor))
    decreases |path|
  {
    if path != [] {
      match path[0]
      case Field(k) => if v.Obj? && k in v.fields && k != OTEL { RewriteAt(v.fields[k], path[1..], backendFor); }
      case Item(i) => if v.Arr? && i < |v.items| { RewriteAt(v.items[i], path[1..], backendFor); }
    }
  }

  lemma {:induction false} HoldsAt(v: Value, path: seq<Step>, ep: string)
    requires At(v, path).Some? && Holds(At(v, path).value, ep)
    ensures Holds(v, ep)
    decreases |path|
  {
    if path != [] {
      match path[0]
      case Field(k) => HoldsAt(v.fields[k], path[1..], ep);
      case Item(i) => HoldsAt(v.items[i], path[1..], ep);
    }
  }

  /** A backend is selected by its kind and its display name. */
  predicate Selects(ref: Value, b: Backend) {
    && HasStr(Fields(ref), "kind", "MeshOpenTelemetryBackend")
    && ObjAt(Fields(ref), "labels") == Some(map[DISPLAY_NAME := Str(b.name)])
  }

  /** An endpoint is converted when it parses and there is no backendRef yet. */
  ghost predicate SameMeaning(ot: Object, ot': Object, backends: seq<Backend>) {
    var ep := StrOr(ot, "endpoint");
    if ep == "" || "backendRef" in ot || Parse(ep).None? then ot' == ot
    else
      && ot' - {"backendRef"} == ot - {"endpoint"} && "backendRef" in ot'
      && (exists i :: 0 <= i < |backends| && Selects(ot'["backendRef"], backends[i])
                   && Some(backends[i].endpoint) == Parse(ep))
      && (forall i, j :: 0 <= i < |backends| && 0 <= j < |backends| ==>
            Selects(ot'["backendRef"], backends[i]) && Selects(ot'["backendRef"], backends[j]) ==> i == j)
  }

  /** At every openTelemetry map the walk reaches: a convertible endpoint is replaced by a reference that
      selects exactly one generated backend, and that backend has the endpoint's host and port; anything else
      is left as it was. */
  lemma MeaningPreserved(doc: Object, path: seq<Step>, systemNS: string, out: Value, backends: seq<Backend>)
    requires KindOf(doc) in {"MeshMetric", "MeshTrace", "MeshAccessLog"} && Converts(doc, systemNS, out, backends)
    requires var n := At(Obj(doc), path); n.Some? && n.value.Obj? && OTEL in n.value.fields && n.value.fields[OTEL].Obj?
    ensures var now := At(out, path);
      && now.Some? && now.value.Obj? && OTEL in now.value.fields && now.value.fields[OTEL].Obj?
      && SameMeaning(At(Obj(doc), path).value.fields[OTEL].fields, now.value.fields[OTEL].fields, backends)
  {
    hide Parse, BackendName, EndpointOf, RewriteMap, SameMeaning, Generated, Distinct, Elems;
    var order, backendFor :| ConvertsBy(doc, systemNS, out, backends, order, backendFor);
    RewriteAt(Obj(doc), path, backendFor);
    var ot := At(Obj(doc), path).value.fields[OTEL].fields;
    if EndpointOf(ot).Some? {
      assert Holds(At(Obj(doc), path).value, EndpointOf(ot).value);
      HoldsAt(Obj(doc), path, EndpointOf(ot).value);
    }
    RewriteMapMeans(ot, NameOf(doc), HomeOf(doc, systemNS), backends, order, backendFor);
  }

  /** The shape of a node: what it is made of, its openTelemetry map and its parts aside. */
  predicate SameShape(v: Value, now: Value) {
    match v
    case Obj(fields) =>
      now.Obj? && now.fields.Keys == fields.Keys
      && (OTEL in fields && !fields[OTEL].Obj? ==> now.fields[OTEL] == fields[OTEL])
    case Arr(items) => now.Arr? && |now.items| == |items|
    case _ => now == v
  }

  /** Nothing else of the document changes: wherever the walk goes there is the same node before and after, and nowhere
      another one. */
  lemma NothingElseChanges(doc: Object, path: seq<Step>, systemNS: string, out: Value, backends: seq<Backend>)
    requires Converts(doc, systemNS, out, backends)
    ensures At(out, path).Some? <==> At(Obj(doc), path).Some?
    ensures At(out, path).Some? && At(Obj(doc), path).Some? ==>
              SameShape(At(Obj(doc), path).value, At(out, path).value)
  {
    hide Generated, Distinct, Elems, Holds, RewriteMap, EndpointOf, NameOf, HomeOf, BackendName, Parse;
    if OtelKind(KindOf(doc)) {
      var order, backendFor :| ConvertsBy(doc, systemNS, out, backends, order, backendFor);
      RewriteAt(Obj(doc), path, backendFor);
    }
  }

  /** A generated backend is in its policy's mesh (of Universal or of Kubernetes spelling) and format, and in the system
      namespace; no two of one policy share a name. */
  lemma BackendsLiveWithPolicy(doc: Object, systemNS: string, out: Value, backends: seq<Backend>)
    requires Converts(doc, systemNS, out, backends)
    ensures forall b :: b in backends ==>
              && b.home.mesh == (if StrOr(doc, "mesh") != "" then StrOr(doc, "mesh")
                                 else StrOr(Sub(Sub(doc, "metadata"), "labels"), "kuma.io/mesh"))
              && b.home.namespace == systemNS && (b.home.universal <==> StrOr(doc, "kind") == "")
    ensures forall i, j :: 0 <= i < j < |backends| ==> backends[i].name != backends[j].name
  {
    hide Parse, BackendName, Rewrite, Holds, Distinct, Elems;
    if OtelKind(KindOf(doc)) {
      var order, backendFor :| ConvertsBy(doc, systemNS, out, backends, order, backendFor);
      forall i, j | 0 <= i < j < |backends| ensures backends[i].name != backends[j].name {
        BackendNamesDiffer(NameOf(doc), i, j);
      }
    }
  }

  /** Among the backends generated for another policy, such a reference selects the one at the same index, and that
      one exactly when the two policies' names were cut or cleaned to the same front. */
  lemma ReferenceAcrossPolicies(doc: Object, path: seq<Step>, systemNS: string, out: Value, backends: seq<Backend>,
                                other: Object, otherOut: Value, others: seq<Backend>)
    requires OtelKind(KindOf(doc)) && Converts(doc, systemNS, out, backends)
    requires OtelKind(KindOf(other)) && Converts(other, systemNS, otherOut, others)
    requires var n := At(Obj(doc), path); n.Some? && n.value.Obj? && OTEL in n.value.fields && n.value.fields[OTEL].Obj?
    requires EndpointOf(At(Obj(doc), path).value.fields[OTEL].fields).Some?
    ensures var now := At(out, path);
      && now.Some? && now.value.Obj? && OTEL in now.value.fields && now.value.fields[OTEL].Obj?
      && "backendRef" in now.value.fields[OTEL].fields
      && var ref := now.value.fields[OTEL].fields["backendRef"];
         exists i :: 0 <= i < |backends| && Selects(ref, backends[i]) &&
             SelectsAmong(ref, i, NameOf(doc), NameOf(other), others)
  {
    hide Parse, BackendName, EndpointOf, SameMeaning, Distinct, Elems, Front, Suffix, SelectsAmong, Rewrite, Holds,
        RefTo, Selects;
    MeaningPreserved(doc, path, systemNS, out, backends);
    var ref := RefOf(doc, path, systemNS, out, backends);
    var order, backendFor :| ConvertsBy(doc, systemNS, out, backends, order, backendFor);
    var otherOrder, otherFor :| ConvertsBy(other, systemNS, otherOut, others, otherOrder, otherFor);
    var i :| 0 <= i < |backends| && Selects(ref, backends[i]);
    AmongOthers(NameOf(doc), NameOf(other), HomeOf(other, systemNS), otherOrder, others, i);
    SameSelection(ref, backends[i], NameOf(doc), NameOf(other), others, i);
  }

  /** The reference the rewrite put at a place. */
  lemma RefOf(doc: Object, path: seq<Step>, systemNS: string, out: Value, backends: seq<Backend>) returns (ref: Value)
    requires OtelKind(KindOf(doc)) && Converts(doc, systemNS, out, backends)
    requires var n := At(Obj(doc), path); n.Some? && n.value.Obj? && OTEL in n.value.fields && n.value.fields[OTEL].Obj?
    requires EndpointOf(At(Obj(doc), path).value.fields[OTEL].fields).Some?
    ensures var now := At(out, path);
      && now.Some? && now.value.Obj? && OTEL in now.value.fields && now.value.fields[OTEL].Obj?
      && "backendRef" in now.value.fields[OTEL].fields && ref == now.value.fields[OTEL].fields["backendRef"]
    ensures exists i :: 0 <= i < |backends| && Selects(ref, backends[i])
  {
    hide Parse, BackendName, EndpointOf, Converts, RefTo, Selects;
    EndpointMeans(At(Obj(doc), path).value.fields[OTEL].fields);
    MeaningPreserved(doc, path, systemNS, out, backends);
    ref := At(out, path).value.fields[OTEL].fields["backendRef"];
  }

  ghost predicate SelectsAmong(ref: Value, i: nat, policyName: string, otherName: string, others: seq<Backend>) {
    forall j :: 0 <= j < |others| ==>
      (Selects(ref, others[j]) <==> i == j && Front(policyName, |Suffix(i)|) == Front(otherName, |Suffix(i)|))
  }

  lemma AmongOthers(policyName: string, otherName: string, home: Home, order: seq<string>, others: seq<Backend>, i: nat)
    requires Generated(otherName, home, order, others)
    ensures SelectsAmong(RefTo(BackendName(policyName, i)), i, policyName, otherName, others)
  {
    hide Parse, BackendName, Front, Suffix, RefTo, Selects;
    forall j | 0 <= j < |others|
      ensures Selects(RefTo(BackendName(policyName, i)), others[j]) <==>
                i == j && Front(policyName, |Suffix(i)|) == Front(otherName, |Suffix(i)|)
    {
      BackendNamesEqual(policyName, otherName, i, j);
      SelectsByName(BackendName(policyName, i), others[j]);
    }
  }

  /** A reference selects among other backends whatever the backend's own name does. */
  lemma SameSelection(ref: Value, b: Backend, policyName: string, otherName: string, others: seq<Backend>, i: nat)
    requires Selects(ref, b) && SelectsAmong(RefTo(b.name), i, policyName, otherName, others)
    ensures SelectsAmong(ref, i, policyName, otherName, others)
  {
    hide Front, Suffix;
    forall j | 0 <= j < |others| ensures Selects(ref, others[j]) <==> Selects(RefTo(b.name), others[j]) {
      SelectsByName(b.name, b);
      SelectsByName(b.name, others[j]);
      if Selects(ref, others[j]) { SameName(b, others[j]); }
    }
  }

  lemma SameName(a: Backend, b: Backend)
    ensures map[DISPLAY_NAME := Str(a.name)] == map[DISPLAY_NAME := Str(b.name)] ==> a.name == b.name
  {
    assert map[DISPLAY_NAME := Str(a.name)][DISPLAY_NAME] == Str(a.name);
    assert map[DISPLAY_NAME := Str(b.name)][DISPLAY_NAME] == Str(b.name);
  }

  lemma RewriteMapMeans(ot: Object, policyName: string, home: Home, backends: seq<Backend>, order: seq<string>,
                        backendFor: map<string, string>)
    requires Generated(policyName, home, order, backends) && Elems(order) == backendFor.Keys
    requires forall i :: 0 <= i < |order| ==>
              order[i] in backendFor && backendFor[order[i]] == BackendName(policyName, i)
    requires EndpointOf(ot).Some? ==> EndpointOf(ot).value in backendFor
    ensures SameMeaning(ot, RewriteMap(ot, backendFor), backends)
  {
    hide Parse, BackendName, RefTo, Selects;
    EndpointMeans(ot);
    var ep := EndpointOf(ot);
    if ep.Some? {
      var ot' := RewriteMap(ot, backendFor);
      assert ep.value in Elems(order);
      var i :| 0 <= i < |order| && order[i] == ep.value;
      assert ot'["backendRef"] == RefTo(BackendName(policyName, i));
      SelectsByName(backends[i].name, backends[i]);
      assert Selects(ot'["backendRef"], backends[i]);
      forall j | 0 <= j < |backends| && Selects(ot'["backendRef"], backends[j]) ensures j == i {
        SelectsByName(backends[i].name, backends[j]);
        if j != i { BackendNamesDiffer(policyName, i, j); }
      }
    }
  }

  lemma SelectsByName(name: string, b: Backend)
    ensures Selects(RefTo(name), b) <==> name == b.name
  {
    if Selects(RefTo(name), b) {
      assert ObjAt(Fields(RefTo(name)), "labels").value[DISPLAY_NAME] == Str(b.name);
    }
  }

  lemma EndpointMeans(ot: Object)
    ensures var ep := StrOr(ot, "endpoint");
      EndpointOf(ot) == if ep == "" || "backendRef" in ot || Parse(ep).None? then None else Some(ep)
  {
  }
}
