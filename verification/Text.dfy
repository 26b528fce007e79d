/** String facts the migrator's code relies on: last occurrence of a marker, decimal numerals,
    the byte-wise order behind sort.Strings, and sorted duplicate-free lists. */
module Text {

  datatype Option<+T> = None | Some(value: T) {
    function Or(default: T): T {
      if None? then default else value
    }
  }

  datatype Result<+T, +E> = Ok(value: T) | Err(error: E)

  // ---- occurrences ---------------------------------------------------------

  predicate OccursAt(s: string, pat: string, i: int) {
    0 <= i && i + |pat| <= |s| && s[i..i + |pat|] == pat
  }

  /** The last occurrence of pat in s that starts at or before i, or -1. */
  function LastIndexUpTo(s: string, pat: string, i: int): (r: int)
    requires i + |pat| <= |s|
    ensures -1 <= r && (r != -1 ==> r <= i && OccursAt(s, pat, r))
    ensures forall j :: r < j <= i ==> !OccursAt(s, pat, j)
    decreases i + 1
  {
    if i < 0 then -1
    else if OccursAt(s, pat, i) then i
    else LastIndexUpTo(s, pat, i - 1)
  }

  /** strings.LastIndex. */
  function LastIndex(s: string, pat: string): (r: int)
    ensures -1 <= r && (r != -1 ==> OccursAt(s, pat, r))
    ensures forall j :: r < j ==> !OccursAt(s, pat, j)
  {
    if |s| < |pat| then -1 else LastIndexUpTo(s, pat, |s| - |pat|)
  }

  lemma LastIndexIs(s: string, pat: string, i: int)
    requires OccursAt(s, pat, i)
    requires forall j :: i < j ==> !OccursAt(s, pat, j)
    ensures LastIndex(s, pat) == i
  {
  }

  predicate Contains(s: string, pat: string) {
    LastIndex(s, pat) != -1
  }

  lemma SingleCharOccurs(s: string, c: char, i: int)
    ensures OccursAt(s, [c], i) <==> 0 <= i < |s| && s[i] == c
  {
    if 0 <= i < |s| {
      assert s[i..i + 1] == [s[i]];
    }
  }

  /** The last occurrence of c in a + [c] + b, when b is free of c, is right after a. */
  lemma LastIndexOfChar(a: string, c: char, b: string)
    requires c !in b
    ensures LastIndex(a + [c] + b, [c]) == |a|
  {
    var s := a + [c] + b;
    SingleCharOccurs(s, c, |a|);
    forall j | |a| < j
      ensures !OccursAt(s, [c], j)
    {
      SingleCharOccurs(s, c, j);
    }
  }

  lemma NoCharNoIndex(s: string, c: char)
    ensures LastIndex(s, [c]) == -1 <==> c !in s
  {
    forall i ensures OccursAt(s, [c], i) <==> 0 <= i < |s| && s[i] == c {
      SingleCharOccurs(s, c, i);
    }
    if c in s {
      var i :| 0 <= i < |s| && s[i] == c;
      assert OccursAt(s, [c], i);
    }
  }

  // ---- slashes -------------------------------------------------------------

  /** Everything before the first slash. */
  function FirstSegment(s: string): string {
    if s == "" || s[0] == '/' then "" else [s[0]] + FirstSegment(s[1..])
  }

  lemma {:induction false} FirstSegmentSplits(s: string)
    ensures '/' !in FirstSegment(s) && FirstSegment(s) <= s
    ensures if '/' in s then |FirstSegment(s)| < |s| && s[|FirstSegment(s)|] == '/' else FirstSegment(s) == s
    decreases |s|
  {
    if s != "" && s[0] != '/' {
      var segment := FirstSegment(s[1..]);
      FirstSegmentSplits(s[1..]);
      assert FirstSegment(s) == [s[0]] + segment && s == [s[0]] + s[1..];
    }
  }

  lemma {:induction false} FirstSegmentIs(segment: string, rest: string)
    requires '/' !in segment
    ensures FirstSegment(segment + "/" + rest) == segment
    decreases |segment|
  {
    var s := segment + "/" + rest;
    if segment != "" {
      FirstSegmentIs(segment[1..], rest);
      assert s[1..] == segment[1..] + "/" + rest && segment == [segment[0]] + segment[1..];
    }
  }

  // ---- numerals ------------------------------------------------------------

  predicate IsDigit(c: char) { '0' <= c <= '9' }

  predicate AllDigits(s: string) { forall c :: c in s ==> IsDigit(c) }

  /** fmt's %d of a non-negative integer. */
  function Decimal(n: nat): (s: string)
    ensures s != "" && AllDigits(s)
  {
    if n < 10 then [('0' as int + n) as char]
    else Decimal(n / 10) + [('0' as int + n % 10) as char]
  }

  function DigitsValue(s: string): nat
    requires AllDigits(s)
  {
    if s == "" then 0
    else
      assert IsDigit(s[|s| - 1]);
      assert forall c :: c in s[..|s| - 1] ==> c in s;
      10 * DigitsValue(s[..|s| - 1]) + (s[|s| - 1] as int - '0' as int)
  }

  lemma {:induction false} DecimalValue(n: nat)
    ensures DigitsValue(Decimal(n)) == n
  {
    var s := Decimal(n);
    if n >= 10 {
      DecimalValue(n / 10);
      assert s[..|s| - 1] == Decimal(n / 10);
    } else {
      assert s[..|s| - 1] == "";
    }
  }

  lemma DecimalInjective(m: nat, n: nat)
    requires Decimal(m) == Decimal(n)
    ensures m == n
  {
    DecimalValue(m);
    DecimalValue(n);
  }

  /** strconv.Atoi, without its overflow error: every caller here bounds the result anyway. */
  function Atoi(s: string): Option<int> {
    var digits := if s != "" && (s[0] == '+' || s[0] == '-') then s[1..] else s;
    if digits == "" || !AllDigits(digits) then None
    else
      var magnitude: int := DigitsValue(digits);
      Some(if s[0] == '-' then -magnitude else magnitude)
  }

  lemma AtoiDecimal(n: nat)
    ensures Atoi(Decimal(n)) == Some(n)
  {
    DecimalValue(n);
    assert IsDigit(Decimal(n)[0]);
  }

  // ---- order ---------------------------------------------------------------

  /** The order of sort.Strings: byte-wise, which on UTF-8 is code point by code point. */
  predicate Less(a: string, b: string) {
    if b == "" then false
    else if a == "" then true
    else if a[0] != b[0] then a[0] < b[0]
    else Less(a[1..], b[1..])
  }

  lemma {:induction false} LessTrichotomy(a: string, b: string)
    ensures a == b ==> !Less(a, b)
    ensures a != b ==> Less(a, b) != Less(b, a)
    decreases |a|
  {
    if a != "" && b != "" && a[0] == b[0] {
      LessTrichotomy(a[1..], b[1..]);
      assert a == [a[0]] + a[1..] && b == [b[0]] + b[1..];
    }
  }

  lemma {:induction false} LessTransitive(a: string, b: string, c: string)
    requires Less(a, b) && Less(b, c)
    ensures Less(a, c)
    decreases |a|
  {
    if a != "" && a[0] == b[0] == c[0] {
      LessTransitive(a[1..], b[1..], c[1..]);
    }
  }

  // ---- sorted lists --------------------------------------------------------

  ghost predicate StrictlySorted(s: seq<string>) {
    forall i, j :: 0 <= i < j < |s| ==> Less(s[i], s[j])
  }

  function Elems<T>(s: seq<T>): set<T> {
    set x | x in s
  }

  predicate Distinct<T(==)>(s: seq<T>) {
    forall i, j :: 0 <= i < j < |s| ==> s[i] != s[j]
  }

  /** A strictly sorted list is determined by its elements: sorting leaves no choice. */
  lemma {:induction false} SortedUnique(a: seq<string>, b: seq<string>)
    requires StrictlySorted(a) && StrictlySorted(b) && Elems(a) == Elems(b)
    ensures a == b
    decreases |a|
  {
    assert a != [] ==> a[0] in Elems(a);
    assert b != [] ==> b[0] in Elems(b);
    if a != [] && b != [] {
      assert a[0] == b[0] by {
        var i :| 0 <= i < |b| && b[i] == a[0];
        var j :| 0 <= j < |a| && a[j] == b[0];
        LessTrichotomy(a[0], b[0]);
      }
      LessTrichotomy(a[0], a[0]);
      forall x ensures x in Elems(a[1..]) <==> x in Elems(b[1..]) {
        assert x in Elems(a[1..]) <==> x in Elems(a) && x != a[0] by {
          if x in a[1..] { var i :| 0 <= i < |a| - 1 && a[1..][i] == x; assert Less(a[0], a[i + 1]); }
          if x in a && x != a[0] { var i :| 0 <= i < |a| && a[i] == x; assert a[1..][i - 1] == x; }
        }
        assert x in Elems(b[1..]) <==> x in Elems(b) && x != b[0] by {
          if x in b[1..] { var i :| 0 <= i < |b| - 1 && b[1..][i] == x; assert Less(b[0], b[i + 1]); }
          if x in b && x != b[0] { var i :| 0 <= i < |b| && b[i] == x; assert b[1..][i - 1] == x; }
        }
      }
      SortedUnique(a[1..], b[1..]);
      assert a == [a[0]] + a[1..] && b == [b[0]] + b[1..];
    }
  }

  /** Where v belongs in a sorted list: everything before is smaller, v is not larger than the rest. */
  function InsertSorted(s: seq<string>, v: string): (r: seq<string>)
    ensures Elems(r) == Elems(s) + {v}
  {
    if s == [] then [v]
    else if v == s[0] then
      assert Elems(s) == {v} + Elems(s[1..]);
      s
    else if Less(v, s[0]) then
      assert Elems([v] + s) == {v} + Elems(s);
      [v] + s
    else
      var t := InsertSorted(s[1..], v);
      assert Elems([s[0]] + t) == {s[0]} + Elems(t);
      assert Elems(s) == {s[0]} + Elems(s[1..]);
      [s[0]] + t
  }

  lemma {:induction false} InsertKeepsSorted(s: seq<string>, v: string)
    requires StrictlySorted(s)
    ensures StrictlySorted(InsertSorted(s, v))
  {
    if s != [] && v != s[0] {
      LessTrichotomy(v, s[0]);
      if Less(v, s[0]) {
        forall j | 0 <= j < |s| ensures Less(v, s[j]) {
          if j > 0 { LessTransitive(v, s[0], s[j]); }
        }
      } else {
        InsertKeepsSorted(s[1..], v);
        var t := InsertSorted(s[1..], v);
        forall j | 0 <= j < |t| ensures Less(s[0], t[j]) {
          assert t[j] in Elems(t);
          if t[j] != v { var i :| 0 <= i < |s[1..]| && s[1..][i] == t[j]; }
        }
      }
    }
  }

  /** In order, repetitions allowed. */
  ghost predicate Sorted(s: seq<string>) {
    forall i, j :: 0 <= i < j < |s| ==> !Less(s[j], s[i])
  }

  /** Two lists that end alike are equal exactly when their fronts are. */
  lemma AppendEqual<T>(a: seq<T>, b: seq<T>, x: T, y: T)
    ensures a + [x] == b + [y] <==> a == b && x == y
  {
    if a + [x] == b + [y] {
      assert (a + [x])[..|a|] == a && (b + [y])[..|b|] == b;
      assert (a + [x])[|a|] == x && (b + [y])[|b|] == y;
    }
  }

  /** Which elements of a list of length n are kept: strictly increasing positions. */
  ghost predicate Positions(at: seq<nat>, n: nat) {
    (forall j :: 0 <= j < |at| ==> at[j] < n) && forall i, j :: 0 <= i < j < |at| ==> at[i] < at[j]
  }

  /** strings.ToLower, over ASCII. */
  function LowerChar(c: char): char {
    if 'A' <= c <= 'Z' then (c as int - 'A' as int + 'a' as int) as char else c
  }

  function ToLower(s: string): string {
    seq(|s|, i requires 0 <= i < |s| => LowerChar(s[i]))
  }
}
