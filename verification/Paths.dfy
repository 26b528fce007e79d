/** Dotted paths into nested maps (legacyconf.go): reading, writing, and what a write leaves alone. */
module Paths {
  import opened Text
  import opened Json

  type Path = seq<string>

  // ---- dotted form -----------------------------------------------------------

  predicate PlainKey(k: string) {
    k != "" && '.' !in k
  }

  predicate Plain(p: Path) {
    forall k :: k in p ==> PlainKey(k)
  }

  predicate DotFree(p: Path) {
    forall k :: k in p ==> '.' !in k
  }

  function Dotted(p: Path): string {
    if p == [] then "" else if |p| == 1 then p[0] else p[0] + "." + Dotted(p[1..])
  }

  /** strings.Split(s, "."). */
  function Split(s: string): (p: Path)
    ensures p != []
  {
    if s == "" then [""]
    else
      var rest := Split(s[1..]);
      if s[0] == '.' then [""] + rest else [[s[0]] + rest[0]] + rest[1..]
  }

  lemma {:induction false} SplitKey(k: string)
    requires '.' !in k
    ensures Split(k) == [k]
    decreases |k|
  {
    if k != "" {
      SplitKey(k[1..]);
      assert [k[0]] + k[1..] == k;
    }
  }

  /** A dot between two strings separates their segments. */
  lemma {:induction false} SplitAtDot(a: string, b: string)
    ensures Split(a + "." + b) == Split(a) + Split(b)
    decreases |a|
  {
    var s := a + "." + b;
    if a == "" {
      assert s[1..] == b;
    } else {
      SplitAtDot(a[1..], b);
      assert s[1..] == a[1..] + "." + b && s[0] == a[0];
      SplitMore(a, b, s);
    }
  }

  lemma SplitMore(a: string, b: string, s: string)
    requires a != "" && s != "" && s[0] == a[0] && Split(s[1..]) == Split(a[1..]) + Split(b)
    ensures Split(s) == Split(a) + Split(b)
  {
    hide Split;
    SplitStep(a);
    SplitStep(s);
    HeadOnto(a[0], Split(a[1..]), Split(b));
  }

  lemma HeadOnto(c: char, front: Path, back: Path)
    requires front != []
    ensures [""] + (front + back) == [""] + front + back
    ensures [[c] + (front + back)[0]] + (front + back)[1..] == [[c] + front[0]] + front[1..] + back
  {
    assert (front + back)[1..] == front[1..] + back;
  }

  lemma SplitStep(s: string)
    requires s != ""
    ensures var rest := Split(s[1..]);
      Split(s) == if s[0] == '.' then [""] + rest else [[s[0]] + rest[0]] + rest[1..]
  {
  }

  lemma {:induction false} SplitDotted(p: Path)
    requires p != [] && DotFree(p)
    ensures Split(Dotted(p)) == p
  {
    SplitKey(p[0]);
    if |p| > 1 {
      SplitAtDot(p[0], Dotted(p[1..]));
      assert forall k :: k in p[1..] ==> k in p;
      SplitDotted(p[1..]);
    }
  }

  lemma {:induction false} DottedSplit(s: string)
    ensures Dotted(Split(s)) == s && DotFree(Split(s))
    decreases |s|
  {
    if s != "" {
      var rest := Split(s[1..]);
      DottedSplit(s[1..]);
      assert s == [s[0]] + s[1..] && rest == [rest[0]] + rest[1..];
      if s[0] == '.' {
        assert ([""] + rest)[1..] == rest;
      } else {
        DottedHead(s[0], rest);
      }
    }
  }

  lemma DottedHead(c: char, rest: Path)
    requires rest != []
    ensures Dotted([[c] + rest[0]] + rest[1..]) == [c] + Dotted(rest)
  {
    var p := [[c] + rest[0]] + rest[1..];
    assert p[1..] == rest[1..] && p[0] == [c] + rest[0];
  }

  lemma DottedInjective(p: Path, q: Path)
    requires DotFree(p) && DotFree(q) && p != [] && q != [] && Dotted(p) == Dotted(q)
    ensures p == q
  {
    SplitDotted(p);
    SplitDotted(q);
  }

  lemma DottedNotEmpty(p: Path)
    requires p != [] && Plain(p)
    ensures Dotted(p) != ""
  {
    assert PlainKey(p[0]);
  }

  // ---- reading ---------------------------------------------------------------

  function Get(v: Value, p: Path): Option<Value> {
    if p == [] then Some(v)
    else if v.Obj? && p[0] in v.fields then Get(v.fields[p[0]], p[1..])
    else None
  }

  lemma {:induction false} GetAppend(v: Value, p: Path, q: Path)
    ensures Get(v, p + q) == if Get(v, p).None? then None else Get(Get(v, p).value, q)
    decreases |p|
  {
    if p == [] {
      assert p + q == q;
    } else {
      assert (p + q)[1..] == p[1..] + q;
      if v.Obj? && p[0] in v.fields { GetAppend(v.fields[p[0]], p[1..], q); }
    }
  }

  /** A value the migrator must account for: present, not null, not a container of fields. */
  predicate LeafValue(v: Value) {
    !v.Null? && !v.Obj?
  }

  predicate LeafAt(v: Value, p: Path) {
    Get(v, p).Some? && LeafValue(Get(v, p).value)
  }

  /** Every key on the way to any node below v is a plain key. */
  ghost predicate PlainKeys(v: Value) {
    forall p :: Get(v, p).Some? ==> Plain(p)
  }

  // ---- writing ---------------------------------------------------------------

  /** set: intermediate maps are created, and replace anything that is not a map. */
  function Set(m: Object, p: Path, v: Value): Object
    requires p != []
    decreases |p|
  {
    if |p| == 1 then m[p[0] := v]
    else m[p[0] := Obj(Set(ObjAt(m, p[0]).Or(map[]), p[1..], v))]
  }

  predicate Incomparable(p: Path, q: Path) {
    !(p <= q) && !(q <= p)
  }

  lemma {:induction false} GetWritten(m: Object, p: Path, v: Value, rest: Path)
    requires p != []
    ensures Get(Obj(Set(m, p, v)), p + rest) == Get(v, rest)
    decreases |p|
  {
    assert (p + rest)[1..] == p[1..] + rest;
    if |p| == 1 {
      assert p[1..] + rest == rest;
    } else {
      GetWritten(ObjAt(m, p[0]).Or(map[]), p[1..], v, rest);
    }
  }

  /** The frame: a write at p changes nothing at a path that is neither above nor below p. */
  lemma {:induction false} GetElsewhere(m: Object, p: Path, v: Value, q: Path)
    requires p != [] && Incomparable(p, q)
    ensures Get(Obj(Set(m, p, v)), q) == Get(Obj(m), q)
    decreases |p|
  {
    assert q != [];
    if q[0] == p[0] {
      assert p == [p[0]] + p[1..] && q == [q[0]] + q[1..];
      assert Incomparable(p[1..], q[1..]);
      if |p| > 1 {
        GetElsewhere(ObjAt(m, p[0]).Or(map[]), p[1..], v, q[1..]);
        assert q[1..] != [];
      }
    }
  }

  /** A path above a write leads to a container. */
  lemma {:induction false} GetAbove(m: Object, p: Path, v: Value, q: Path)
    requires p != [] && q <= p && q != p
    ensures Get(Obj(Set(m, p, v)), q).Some? && Get(Obj(Set(m, p, v)), q).value.Obj?
    decreases |p|
  {
    if q != [] {
      assert q[1..] <= p[1..] && q[1..] != p[1..] by { assert p == [p[0]] + p[1..] && q == [q[0]] + q[1..]; }
      GetAbove(ObjAt(m, p[0]).Or(map[]), p[1..], v, q[1..]);
    }
  }

  lemma IncomparableBelow(p: Path, q: Path, rest: Path)
    requires Incomparable(p, q)
    ensures Incomparable(p, q + rest)
  {
    assert (q + rest)[..|q|] == q;
    assert |p| <= |q| ==> (q + rest)[..|p|] == q[..|p|];
  }
}
