/** sortedKeys (rulesapi.go): the keys of a map, by an insertion sort in place. */
module Sorting {
  import opened Text

  method SortedKeys(m: set<string>) returns (keys: seq<string>)
    ensures StrictlySorted(keys) && Elems(keys) == m && |keys| == |m|
  {
    var a := new string[|m|](_ => "");
    Fill(a, m);
    var i := 1;
    while i < a.Length
      invariant 1 <= i && (i <= a.Length || a.Length == 0)
      invariant Distinct(a[..]) && Elems(a[..]) == m
      invariant forall p, q :: 0 <= p < q < i <= a.Length ==> Less(a[p], a[q])
    {
      InsertBack(a, i);
      i := i + 1;
    }
    keys := a[..];
  }

  method Fill(a: array<string>, m: set<string>)
    requires a.Length == |m|
    modifies a
    ensures Distinct(a[..]) && Elems(a[..]) == m
  {
    var todo, i := m, 0;
    while todo != {}
      invariant todo <= m && i == |m| - |todo|
      invariant Distinct(a[..i]) && Elems(a[..i]) == m - todo
      decreases |todo|
    {
      var k :| k in todo;
      assert forall p :: 0 <= p < i ==> a[..i][p] in Elems(a[..i]);
      a[i] := k;
      assert a[..i + 1] == a[..i] + [k];
      ElemsAppend(a[..i], k);
      todo := todo - {k};
      i := i + 1;
    }
    assert a[..i] == a[..];
  }

  lemma ElemsAppend(s: seq<string>, k: string)
    ensures Elems(s + [k]) == Elems(s) + {k}
  {
    assert (s + [k])[|s|] == k;
    forall x | x in s ensures x in s + [k] {
      var i :| 0 <= i < |s| && s[i] == x;
      assert (s + [k])[i] == x;
    }
  }

  /** The inner loop: a[hi] moves down past every larger key of the sorted prefix a[..hi]. */
  method InsertBack(a: array<string>, hi: int)
    requires 0 < hi < a.Length && Distinct(a[..])
    requires forall p, q :: 0 <= p < q < hi ==> Less(a[p], a[q])
    modifies a
    ensures Distinct(a[..]) && Elems(a[..]) == old(Elems(a[..]))
    ensures forall p, q :: 0 <= p < q <= hi ==> Less(a[p], a[q])
  {
    var j := hi;
    while j > 0 && Less(a[j], a[j - 1])
      invariant 0 <= j <= hi
      invariant Distinct(a[..]) && Elems(a[..]) == old(Elems(a[..]))
      invariant forall p, q :: 0 <= p < q <= hi && q != j && p != j ==> Less(a[p], a[q])
      invariant forall q :: j < q <= hi ==> Less(a[j], a[q])
    {
      ghost var was := a[..];
      a[j], a[j - 1] := a[j - 1], a[j];
      Swapped(was, a[..], j);
      j := j - 1;
    }
    if j > 0 {
      LessTrichotomy(a[j], a[j - 1]);
      assert a[..][j] != a[..][j - 1];
      forall p | 0 <= p < j ensures Less(a[p], a[j]) {
        if p < j - 1 { LessTransitive(a[p], a[j - 1], a[j]); }
      }
    }
  }

  lemma Swapped(was: seq<string>, now: seq<string>, j: int)
    requires 0 < j < |was| && |now| == |was| && Distinct(was)
    requires now == was[j := was[j - 1]][j - 1 := was[j]]
    ensures Distinct(now) && Elems(now) == Elems(was)
  {
    forall x ensures x in Elems(now) <==> x in Elems(was) {
      if x in was {
        var i :| 0 <= i < |was| && was[i] == x;
        assert now[if i == j then j - 1 else if i == j - 1 then j else i] == x;
      }
    }
  }

  /** sort.Strings: a sorted permutation. */
  method SortStrings(s: seq<string>) returns (out: seq<string>)
    ensures Sorted(out) && multiset(out) == multiset(s)
  {
    out := [];
    for i := 0 to |s|
      invariant Sorted(out) && multiset(out) == multiset(s[..i])
    {
      out := InsertString(out, s[i]);
      assert s[..i + 1] == s[..i] + [s[i]];
    }
    assert s[..|s|] == s;
  }

  method InsertString(s: seq<string>, v: string) returns (out: seq<string>)
    requires Sorted(s)
    ensures Sorted(out) && multiset(out) == multiset(s) + multiset{v}
  {
    var k := |s|;
    while k > 0 && Less(v, s[k - 1])
      invariant 0 <= k <= |s|
      invariant forall j :: k <= j < |s| ==> Less(v, s[j])
    {
      k := k - 1;
    }
    forall i | 0 <= i < k ensures !Less(v, s[i]) {
      if i < k - 1 { NotBelow(v, s[k - 1], s[i]); }
    }
    forall j | k <= j < |s| ensures !Less(s[j], v) { LessTrichotomy(v, s[j]); }
    out := s[..k] + [v] + s[k..];
    assert s == s[..k] + s[k..];
  }

  /** Not below a larger string, so not below a smaller one. */
  lemma NotBelow(v: string, b: string, a: string)
    requires !Less(v, b) && !Less(b, a)
    ensures !Less(v, a)
  {
    LessTrichotomy(a, b);
    if Less(v, a) && a != b { LessTransitive(v, a, b); }
  }
}
