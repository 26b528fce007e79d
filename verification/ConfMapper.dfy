/** confMapper (legacyconf.go): moves values between nested maps by dotted path and accounts for
    everything no move consumed. */
module ConfMapper {
  import opened Text
  import opened Json
  import opened Paths
  import Sorting

  // ---- consumption -----------------------------------------------------------

  /** isConsumed's loop: the path itself, then each ancestor, cutting at the last dot. */
  predicate ConsumedName(used: set<string>, p: string)
    decreases |p|
  {
    p in used || (var i := LastIndex(p, "."); i != -1 && ConsumedName(used, p[..i]))
  }

  /** A path is consumed when it or something above it was. */
  ghost predicate Consumed(used: set<string>, p: Path) {
    exists n :: 0 < n <= |p| && Dotted(p[..n]) in used
  }

  /** The string loop is the segment-wise reading of "ancestor", for every string. */
  lemma {:induction false} ConsumedAgrees(used: set<string>, s: string)
    ensures ConsumedName(used, s) <==> Consumed(used, Split(s))
    decreases |s|
  {
    var i := LastIndex(s, ".");
    DottedSplit(s);
    if i == -1 {
      assert "." == ['.'];
      NoCharNoIndex(s, '.');
      SplitKey(s);
      assert [s][..1] == [s] && Dotted([s]) == s;
      if Consumed(used, [s]) {
        var n :| 0 < n <= 1 && Dotted([s][..n]) in used;
        assert n == 1;
      }
    } else {
      var head, tail := s[..i], s[i + 1..];
      CutAtLastDot(s);
      SplitAtDot(head, tail);
      SplitKey(tail);
      ConsumedAgrees(used, head);
      ConsumedAppend(used, Split(head), tail);
    }
  }

  lemma CutAtLastDot(s: string)
    requires LastIndex(s, ".") != -1
    ensures var i := LastIndex(s, "."); 0 <= i < |s| && s == s[..i] + "." + s[i + 1..] && '.' !in s[i + 1..]
  {
    var i := LastIndex(s, ".");
    assert "." == ['.'];
    assert s[i..i + 1] == ".";
    forall j | i < j < |s| ensures s[j] != '.' { SingleCharOccurs(s, '.', j); }
  }

  lemma ConsumedAppend(used: set<string>, p: Path, k: string)
    ensures Consumed(used, p + [k]) <==> Consumed(used, p) || Dotted(p + [k]) in used
  {
    var q := p + [k];
    assert forall n :: 0 < n <= |p| ==> p[..n] == q[..n];
    assert q[..|q|] == q;
    if Consumed(used, p) {
      var n :| 0 < n <= |p| && Dotted(p[..n]) in used;
      assert Dotted(q[..n]) in used;
    }
    if Consumed(used, q) {
      var n :| 0 < n <= |q| && Dotted(q[..n]) in used;
      if n <= |p| { assert Dotted(p[..n]) in used; }
    }
  }

  lemma ConsumedBelow(used: set<string>, p: Path, q: Path)
    requires Consumed(used, p)
    ensures Consumed(used, p + q)
  {
    var n :| 0 < n <= |p| && Dotted(p[..n]) in used;
    assert (p + q)[..n] == p[..n];
  }

  // ---- naming a leaf ---------------------------------------------------------

  function ChildName(path: string, k: string): string {
    if path != "" then path + "." + k else k
  }

  /** How unmapped() names the node at p below a node named path. */
  function NameBelow(path: string, p: Path): string
    decreases |p|
  {
    if p == [] then path else NameBelow(ChildName(path, p[0]), p[1..])
  }

  function LeafName(p: Path): string {
    NameBelow("", p)
  }

  lemma {:induction false} ConsumedNameBelow(used: set<string>, path: string, p: Path)
    requires path != "" && ConsumedName(used, path)
    ensures NameBelow(path, p) != "" && ConsumedName(used, NameBelow(path, p))
    decreases |p|
  {
    if p != [] {
      var child := ChildName(path, p[0]);
      SplitAtDot(path, p[0]);
      ConsumedAgrees(used, path);
      ConsumedAgrees(used, child);
      ConsumedBelow(used, Split(path), Split(p[0]));
      ConsumedNameBelow(used, child, p[1..]);
    }
  }

  lemma {:induction false} NameIsDotted(path: string, p: Path)
    ensures path != "" && p != [] ==> NameBelow(path, p) == path + "." + Dotted(p)
    ensures p != [] && p[0] != "" ==> LeafName(p) == Dotted(p)
    decreases |p|
  {
    if p != [] {
      NameIsDotted(ChildName(path, p[0]), p[1..]);
      NameIsDotted(p[0], p[1..]);
      assert p[1..] == [] ==> p == [p[0]];
      assert LeafName(p) == NameBelow(p[0], p[1..]);
      assert (path + "." + p[0]) + "." + Dotted(p[1..]) == path + "." + (p[0] + "." + Dotted(p[1..]));
    }
  }

  /** With plain keys the name says where the leaf is. */
  lemma NameSplits(p: Path)
    requires Plain(p) && p != []
    ensures LeafName(p) == Dotted(p) && Split(LeafName(p)) == p
  {
    assert PlainKey(p[0]);
    NameIsDotted("", p);
    SplitDotted(p);
  }

  // ---- one move --------------------------------------------------------------

  datatype Move = Move(from: Path, to: Path, percentage: bool)

  datatype State = State(dst: Object, used: set<string>)

  /** The number a value stands for. */
  function NumberOf(v: Value): Option<real> {
    match v
    case Num(f) => Some(f)
    case Int(i) => Some(i as real)
    case Shown(n) => Some(n)
    case _ => None
  }

  predicate Whole(f: real) {
    f == f.Floor as real
  }

  /** The same percentage: the same number, an integer if and only if it is whole, and otherwise a decimal string;
      whatever is no decoded number stays as it is. */
  predicate SamePercentage(v: Value, now: Value) {
    if v.Num? then NumberOf(now) == NumberOf(v) && (if Whole(v.f) then now.Int? else now.Shown?) else now == v
  }

  /** normalizePercentage: whole numbers stay numbers, fractions become decimal strings. */
  function Normalize(v: Value): (r: Value)
    ensures SamePercentage(v, r)
    ensures LeafValue(v) <==> LeafValue(r)
  {
    if !v.Num? then v
    else if v.f == v.f.Floor as real then Int(v.f.Floor)
    else Shown(v.f)
  }

  function Converted(m: Move, v: Value): Value {
    if m.percentage then Normalize(v) else v
  }

  predicate Moves(src: Object, m: Move) {
    Get(Obj(src), m.from).Some? && !Get(Obj(src), m.from).value.Null?
  }

  function Step(src: Object, st: State, m: Move): State
    requires m.to != []
  {
    if !Moves(src, m) then st
    else State(Set(st.dst, m.to, Converted(m, Get(Obj(src), m.from).value)), st.used + {Dotted(m.from)})
  }

  /** The map at a path below m, an empty one where there is none. */
  function MapAt(m: Object, p: Path): Object {
    if p == [] then m else ObjAt(MapAt(m, p[..|p| - 1]), p[|p| - 1]).Or(map[])
  }

  /** One segment further down, and the write one segment further up. */
  lemma OneSegment(m: Object, parts: Path, i: nat, value: Value)
    requires i < |parts|
    ensures MapAt(m, parts[..i + 1]) == ObjAt(MapAt(m, parts[..i]), parts[i]).Or(map[])
    ensures i + 1 == |parts| ==>
              Set(MapAt(m, parts[..i]), parts[i..], value) == MapAt(m, parts[..i])[parts[i] := value]
    ensures i + 1 < |parts| ==>
              Set(MapAt(m, parts[..i]), parts[i..], value) ==
              MapAt(m, parts[..i])[parts[i] := Obj(Set(MapAt(m, parts[..i + 1]), parts[i + 1..], value))]
  {
    assert parts[..i + 1][..i] == parts[..i] && parts[i..][1..] == parts[i + 1..];
  }

  lemma AtTheTop(m: Object, parts: Path)
    ensures MapAt(m, parts[..0]) == m && parts[0..] == parts
  {
  }

  class Mapper {
    const src: Object
    var dst: Object
    var used: set<string>

    constructor (conf: Object)
      ensures src == conf && Current() == State(map[], {})
    {
      src, dst, used := conf, map[], {};
    }

    ghost function Current(): State
      reads this
    {
      State(dst, used)
    }

    /** get: walks the segments of the path. */
    method Lookup(path: string) returns (r: Option<Value>)
      ensures r == Get(Obj(src), Split(path))
    {
      var parts := Split(path);
      var cur := Obj(src);
      for i := 0 to |parts|
        invariant Get(Obj(src), parts) == Get(cur, parts[i..])
      {
        if !cur.Obj? || parts[i] !in cur.fields { return None; }
        assert parts[i..][1..] == parts[i + 1..];
        cur := cur.fields[parts[i]];
      }
      return Some(cur);
    }

    method MarkUsed(path: string)
      modifies this`used
      ensures used == old(used) + {path}
    {
      used := used + {path};
    }

    /** set: down the segments, creating maps, then the value; the values written on the way back up are the maps
        the original changes in place. */
    method Write(path: string, value: Value)
      modifies this`dst
      ensures dst == Set(old(dst), Split(path), value)
    {
      hide Set, MapAt, Split;
      var parts, top := Split(path), dst;
      var last := |parts| - 1;
      var above, cur := [], top;
      AtTheTop(top, parts);
      for i := 0 to last
        invariant |above| == i && cur == MapAt(top, parts[..i])
        invariant forall j :: 0 <= j < i ==> above[j] == MapAt(top, parts[..j])
      {
        OneSegment(top, parts, i, value);
        above := above + [cur];
        cur := ObjAt(cur, parts[i]).Or(map[]);
      }
      OneSegment(top, parts, last, value);
      cur := cur[parts[last] := value];
      var i := last;
      while i > 0
        invariant 0 <= i <= last && cur == Set(MapAt(top, parts[..i]), parts[i..], value)
      {
        i := i - 1;
        OneSegment(top, parts, i, value);
        cur := above[i][parts[i] := Obj(cur)];
      }
      dst := cur;
    }

    /** move and moveWith(…, normalizePercentage): the value goes across, its path is consumed; a null or
        missing value does neither. */
    method Apply(m: Move) returns (moved: bool)
      requires Plain(m.from) && Plain(m.to) && m.from != [] && m.to != []
      modifies this
      ensures moved == Moves(src, m)
      ensures Current() == Step(src, old(Current()), m)
    {
      PlainDotFree(m.from);
      PlainDotFree(m.to);
      SplitDotted(m.from);
      SplitDotted(m.to);
      var v := Lookup(Dotted(m.from));
      if v.None? || v.value.Null? { return false; }
      MarkUsed(Dotted(m.from));
      Write(Dotted(m.to), if m.percentage then Normalize(v.value) else v.value);
      return true;
    }

    method IsConsumed(path: string) returns (r: bool)
      ensures r == ConsumedName(used, path)
    {
      var p := path;
      while true
        invariant ConsumedName(used, path) == ConsumedName(used, p)
        decreases |p|
      {
        if p in used { return true; }
        var i := LastIndex(p, ".");
        if i < 0 { return false; }
        p := p[..i];
      }
    }

    /** The walk of unmapped(): the names of the unconsumed leaves at or below a node named path, in the order of
        their paths. */
    method Walk(node: Value, path: string) returns (out: seq<string>, ghost paths: seq<Path>)
      ensures Distinct(paths) && |out| == |paths| && forall i :: 0 <= i < |out| ==> out[i] == NameBelow(path, paths[i])
      ensures forall p :: p in paths <==> Left(used, node, path, p)
      decreases node
    {
      hide Left, NameBelow, ConsumedName, Prefixed;
      if path != "" {
        var done := IsConsumed(path);
        if done {
          NoneBelowConsumed(used, node, path);
          return [], [];
        }
      }
      if node.Null? {
        NoneBelowNull(used, node, path);
        return [], [];
      }
      if !node.Obj? {
        OnlyItself(used, node, path);
        return [path], [[]];
      }
      var keys := Sorting.SortedKeys(node.fields.Keys);
      out, paths := [], [];
      for i := 0 to |keys|
        invariant Distinct(paths) && |out| == |paths| && forall j :: 0 <= j < |out| ==>
          out[j] == NameBelow(path, paths[j])
        invariant forall p :: p in paths <==> Left(used, node, path, p) && p != [] && p[0] in Elems(keys[..i])
      {
        var k := keys[i];
        assert k in Elems(keys);
        var below, tails := Walk(node.fields[k], ChildName(path, k));
        SortedAppend(keys, i);
        OneMoreChild(used, node, path, k, Elems(keys[..i]), paths, tails);
        out, paths := out + below, paths + Prefixed(k, tails);
      }
      assert keys[..|keys|] == keys;
      LeavesHaveKeys(used, node, path);
    }

    /** unmapped: the sorted names of the leaves no move consumed. */
    method Unmapped() returns (out: seq<string>)
      ensures Reports(out, used, src)
    {
      ghost var paths;
      var walked: seq<string>;
      walked, paths := Walk(Obj(src), "");
      out := Sorting.SortStrings(walked);
      assert walked == Names(paths);
      assert ReportsPaths(out, used, src, paths);
    }
  }

  /** A leaf whose name is not consumed. (A name is empty only when all the keys above it are.) */
  ghost predicate Left(used: set<string>, node: Value, path: string, p: Path) {
    LeafAt(node, p) && (NameBelow(path, p) == "" || !ConsumedName(used, NameBelow(path, p)))
  }

  /** The leaf of a conf at p is left over. */
  ghost predicate LeftOver(used: set<string>, src: Object, p: Path) {
    Left(used, Obj(src), "", p)
  }

  function Names(paths: seq<Path>): seq<string> {
    seq(|paths|, i requires 0 <= i < |paths| => LeafName(paths[i]))
  }

  /** A sorted list that names every left-over leaf once, and nothing else. */
  ghost predicate Reports(out: seq<string>, used: set<string>, src: Object) {
    exists paths :: ReportsPaths(out, used, src, paths)
  }

  ghost predicate ReportsPaths(out: seq<string>, used: set<string>, src: Object, paths: seq<Path>) {
    && Sorted(out) && Distinct(paths) && multiset(out) == multiset(Names(paths))
    && forall p :: p in paths <==> LeftOver(used, src, p)
  }

  lemma NoneBelowConsumed(used: set<string>, node: Value, path: string)
    requires path != "" && ConsumedName(used, path)
    ensures forall p :: !Left(used, node, path, p)
  {
    forall p ensures !Left(used, node, path, p) { ConsumedNameBelow(used, path, p); }
  }

  lemma NoneBelowNull(used: set<string>, node: Value, path: string)
    requires node.Null?
    ensures forall p :: !Left(used, node, path, p)
  {
  }

  lemma OnlyItself(used: set<string>, node: Value, path: string)
    requires LeafValue(node) && (path == "" || !ConsumedName(used, path))
    ensures forall p :: p in [[]] <==> Left(used, node, path, p)
    ensures NameBelow(path, []) == path
  {
  }

  lemma LeavesHaveKeys(used: set<string>, node: Value, path: string)
    requires node.Obj?
    ensures forall p :: Left(used, node, path, p) ==> p != [] && p[0] in node.fields.Keys
  {
  }

  function Prefixed(k: string, tails: seq<Path>): seq<Path> {
    seq(|tails|, i requires 0 <= i < |tails| => [k] + tails[i])
  }

  lemma SortedAppend(keys: seq<string>, i: nat)
    requires StrictlySorted(keys) && i < |keys|
    ensures Elems(keys[..i + 1]) == Elems(keys[..i]) + {keys[i]} && keys[i] !in Elems(keys[..i])
  {
    assert keys[..i + 1] == keys[..i] + [keys[i]];
    Sorting.ElemsAppend(keys[..i], keys[i]);
    LessTrichotomy(keys[i], keys[i]);
  }

  /** The paths of one more child: their first key is new, so all of them are. */
  lemma OneMoreChild(used: set<string>, node: Value, path: string, k: string, done: set<string>, paths: seq<Path>,
                     tails: seq<Path>)
    requires node.Obj? && k in node.fields && k !in done && Distinct(paths) && Distinct(tails)
    requires forall p :: p in paths <==> Left(used, node, path, p) && p != [] && p[0] in done
    requires forall q :: q in tails <==> Left(used, node.fields[k], ChildName(path, k), q)
    ensures Distinct(paths + Prefixed(k, tails))
    ensures forall p :: p in paths + Prefixed(k, tails) <==> Left(used, node, path, p) && p != [] && p[0] in done + {k}
    ensures |Prefixed(k, tails)| == |tails|
    ensures forall i :: 0 <= i < |tails| ==>
              NameBelow(path, Prefixed(k, tails)[i]) == NameBelow(ChildName(path, k), tails[i])
  {
    hide ConsumedName, ChildName;
    var more := Prefixed(k, tails);
    forall i | 0 <= i < |tails| ensures more[i][1..] == tails[i] && more[i][0] == k && more[i] != [] {}
    forall p ensures p in more <==> Left(used, node, path, p) && p != [] && p[0] == k {
      if p != [] && p[0] == k {
        assert p == [k] + p[1..];
        assert Left(used, node, path, p) <==> Left(used, node.fields[k], ChildName(path, k), p[1..]);
        if p[1..] in tails {
          var i :| 0 <= i < |tails| && tails[i] == p[1..];
          assert more[i] == p;
        }
      }
      if p in more {
        var i :| 0 <= i < |more| && more[i] == p;
        assert p[1..] == tails[i];
      }
    }
    NewHeads(k, paths, tails);
  }

  lemma NewHeads(k: string, paths: seq<Path>, tails: seq<Path>)
    requires Distinct(paths) && Distinct(tails) && forall p :: p in paths ==> p != [] && p[0] != k
    ensures Distinct(paths + Prefixed(k, tails))
  {
    var more, all := Prefixed(k, tails), paths + Prefixed(k, tails);
    forall i, j | 0 <= i < j < |all| ensures all[i] != all[j] {
      if j < |paths| {
      } else if i < |paths| {
        assert paths[i] in paths;
      } else {
        assert all[i][1..] == tails[i - |paths|] && all[j][1..] == tails[j - |paths|];
      }
    }
  }

  lemma PlainDotFree(p: Path)
    requires Plain(p)
    ensures DotFree(p)
  {
  }

  // ---- conservation over a table of moves ------------------------------------

  function Run(src: Object, moves: seq<Move>): State
    requires forall i :: 0 <= i < |moves| ==> moves[i].to != []
  {
    if moves == [] then State(map[], {})
    else Step(src, Run(src, moves[..|moves| - 1]), moves[|moves| - 1])
  }

  /** No source of the table lies above or below another one, and no destination does. */
  predicate WellFormed(moves: seq<Move>) {
    && (forall i :: 0 <= i < |moves| ==>
          moves[i].from != [] && moves[i].to != [] && Plain(moves[i].from) && Plain(moves[i].to))
    && forall i, j :: 0 <= i < j < |moves| ==>
         Incomparable(moves[i].from, moves[j].from) && Incomparable(moves[i].to, moves[j].to)
  }

  /** What a move makes of the value at its source: the same one, or the same percentage. */
  predicate KeepsValue(m: Move, v: Value, now: Value) {
    if m.percentage then SamePercentage(v, now) else now == v
  }

  /** Where the leaf at p ends up, when move m carries it. */
  ghost predicate Carried(src: Object, dst: Object, m: Move, p: Path) {
    && m.from <= p
    && var rest := p[|m.from|..];
       && Get(Obj(src), p).Some? && Get(Obj(dst), m.to + rest).Some?
       && var v, now := Get(Obj(src), p).value, Get(Obj(dst), m.to + rest).value;
          if rest == [] then KeepsValue(m, v, now) else now == v
  }

  lemma {:induction false} LeavesAreCarried(src: Object, moves: seq<Move>, i: nat, p: Path)
    requires WellFormed(moves) && i < |moves| && moves[i].from <= p && LeafAt(Obj(src), p)
    ensures Carried(src, Run(src, moves).dst, moves[i], p)
    decreases |moves|
  {
    var last := |moves| - 1;
    var m, rest := moves[i], p[|moves[i].from|..];
    assert p == m.from + rest;
    GetAppend(Obj(src), m.from, rest);
    if i == last {
      assert Moves(src, m);
      GetWritten(Run(src, moves[..last]).dst, m.to, Converted(m, Get(Obj(src), m.from).value), rest);
    } else {
      LeavesAreCarried(src, moves[..last], i, p);
      if Moves(src, moves[last]) {
        IncomparableBelow(moves[last].to, m.to, rest);
        GetElsewhere(Run(src, moves[..last]).dst, moves[last].to,
                     Converted(moves[last], Get(Obj(src), moves[last].from).value), m.to + rest);
      }
    }
  }

  lemma {:induction false} UsedNames(src: Object, moves: seq<Move>, name: string)
    requires WellFormed(moves)
    ensures name in Run(src, moves).used <==>
              exists i :: 0 <= i < |moves| && Moves(src, moves[i]) && name == Dotted(moves[i].from)
    decreases |moves|
  {
    hide Moves, Set, Get, Dotted, Plain, Incomparable;
    if moves != [] {
      var last := |moves| - 1;
      UsedNames(src, moves[..last], name);
      assert forall i :: 0 <= i < last ==> moves[..last][i] == moves[i];
      if i :| 0 <= i < last && Moves(src, moves[i]) && name == Dotted(moves[i].from) {
        assert Moves(src, moves[..last][i]);
      }
    }
  }

  /** A null or missing value is not moved: the place it would go to stays empty, and its name is not consumed. */
  lemma {:induction false} NullStaysBehind(src: Object, moves: seq<Move>, n: nat, i: nat)
    requires WellFormed(moves) && n <= |moves| && i < |moves|
    requires Get(Obj(src), moves[i].from) in {None, Some(Null)}
    ensures Get(Obj(Run(src, moves[..n]).dst), moves[i].to).None?
    ensures Dotted(moves[i].from) !in Run(src, moves[..n]).used
    decreases n
  {
    hide Get, Set, Incomparable, Dotted, Plain;
    if n == 0 {
      NothingAt(moves[i].to);
    } else {
      var m := moves[n - 1];
      assert moves[..n][..n - 1] == moves[..n - 1];
      NullStaysBehind(src, moves, n - 1, i);
      if n - 1 != i {
        var before := Run(src, moves[..n - 1]);
        SourcesApart(moves, n - 1, i);
        if Moves(src, m) {
          GetElsewhere(before.dst, m.to, Converted(m, Get(Obj(src), m.from).value), moves[i].to);
        }
      }
    }
  }

  /** A value that moves is at its place afterwards, whole. */
  lemma {:induction false} MovedWhole(src: Object, moves: seq<Move>, n: nat, i: nat)
    requires WellFormed(moves) && i < n <= |moves| && Moves(src, moves[i]) && !moves[i].percentage
    ensures Get(Obj(Run(src, moves[..n]).dst), moves[i].to) == Get(Obj(src), moves[i].from)
    decreases n
  {
    hide Get, Set, Incomparable, Dotted, Plain;
    var m, before := moves[n - 1], Run(src, moves[..n - 1]);
    assert moves[..n][..n - 1] == moves[..n - 1];
    if n - 1 == i {
      var v := Get(Obj(src), m.from).value;
      GetWritten(before.dst, m.to, v, []);
      GetHere(v);
      assert m.to + [] == m.to;
    } else {
      MovedWhole(src, moves, n - 1, i);
      SourcesApart(moves, n - 1, i);
      if Moves(src, m) {
        GetElsewhere(before.dst, m.to, Converted(m, Get(Obj(src), m.from).value), moves[i].to);
      }
    }
  }

  lemma GetHere(v: Value)
    ensures Get(v, []) == Some(v)
  {
  }

  lemma NothingAt(p: Path)
    requires p != []
    ensures Get(Obj(map[]), p).None?
  {
  }

  lemma SourcesApart(moves: seq<Move>, i: nat, j: nat)
    requires WellFormed(moves) && i < |moves| && j < |moves| && i != j
    ensures Incomparable(moves[i].to, moves[j].to) && Dotted(moves[i].from) != Dotted(moves[j].from)
  {
    PlainDotFree(moves[i].from);
    PlainDotFree(moves[j].from);
    if Dotted(moves[i].from) == Dotted(moves[j].from) { DottedInjective(moves[i].from, moves[j].from); }
  }

  /** A leaf is left over exactly when no moved source is at or above the place its name spells. */
  lemma LeftOverMeans(src: Object, moves: seq<Move>, p: Path)
    requires WellFormed(moves) && LeafAt(Obj(src), p)
    ensures LeftOver(Run(src, moves).used, src, p) <==>
              !exists i :: 0 <= i < |moves| && Moves(src, moves[i]) && moves[i].from <= Split(LeafName(p))
  {
    hide Incomparable, Run, ConsumedName, Moves, Get;
    var used, place := Run(src, moves).used, Split(LeafName(p));
    ConsumedAgrees(used, LeafName(p));
    DottedSplit(LeafName(p));
    NoEmptySource(src, moves);
    if Consumed(used, place) {
      var n :| 0 < n <= |place| && Dotted(place[..n]) in used;
      UsedNames(src, moves, Dotted(place[..n]));
      var i :| 0 <= i < |moves| && Moves(src, moves[i]) && Dotted(place[..n]) == Dotted(moves[i].from);
      assert forall k :: k in place[..n] ==> k in place;
      PlainDotFree(moves[i].from);
      DottedInjective(place[..n], moves[i].from);
    }
    if i :| 0 <= i < |moves| && Moves(src, moves[i]) && moves[i].from <= place {
      UsedNames(src, moves, Dotted(moves[i].from));
      assert place[..|moves[i].from|] == moves[i].from;
      assert Consumed(used, place);
      EmptyNameHasNoSource(moves[i], LeafName(p));
    }
  }

  lemma NoEmptySource(src: Object, moves: seq<Move>)
    requires WellFormed(moves)
    ensures "" !in Run(src, moves).used
  {
    hide Run, Moves, Incomparable;
    UsedNames(src, moves, "");
    forall i | 0 <= i < |moves| ensures Dotted(moves[i].from) != "" { DottedNotEmpty(moves[i].from); }
  }

  lemma EmptyNameHasNoSource(m: Move, name: string)
    requires m.from != [] && Plain(m.from) && m.from <= Split(name)
    ensures name != ""
  {
    assert PlainKey(m.from[0]);
  }

  /** A leaf is carried exactly when some move's source is at or above it; that move then moved. */
  lemma CarriedMeans(src: Object, moves: seq<Move>, p: Path)
    requires WellFormed(moves) && LeafAt(Obj(src), p)
    ensures (exists i :: 0 <= i < |moves| && Carried(src, Run(src, moves).dst, moves[i], p))
       <==> exists i :: 0 <= i < |moves| && moves[i].from <= p
    ensures forall i :: 0 <= i < |moves| && moves[i].from <= p ==> Moves(src, moves[i])
  {
    forall i | 0 <= i < |moves| && moves[i].from <= p
      ensures Moves(src, moves[i]) && Carried(src, Run(src, moves).dst, moves[i], p)
    {
      LeavesAreCarried(src, moves, i, p);
      SourceAbove(src, moves[i], p);
    }
  }

  /** A source above a leaf is present and not null. */
  lemma SourceAbove(src: Object, m: Move, p: Path)
    requires m.from <= p && LeafAt(Obj(src), p)
    ensures Moves(src, m)
  {
    var rest := p[|m.from|..];
    assert p == m.from + rest;
    GetAppend(Obj(src), m.from, rest);
    if rest == [] { assert m.from == p; }
  }

  /** A plain source above a path is above the place the path's name spells. */
  lemma SourceSpelled(from: Path, p: Path)
    requires from != [] && Plain(from) && from <= p
    ensures from <= Split(LeafName(p))
  {
    assert PlainKey(from[0]) && p[0] == from[0];
    NameIsDotted("", p);
    DottedPrefix(from, p);
  }

  lemma {:induction false} DottedPrefix(from: Path, p: Path)
    requires from != [] && Plain(from) && from <= p
    ensures from <= Split(Dotted(p))
    decreases |from|
  {
    assert PlainKey(from[0]) && p[0] == from[0];
    SplitKey(p[0]);
    if |p| > 1 {
      SplitAtDot(p[0], Dotted(p[1..]));
      if |from| > 1 {
        assert forall k :: k in from[1..] ==> k in from;
        DottedPrefix(from[1..], p[1..]);
        assert from == [from[0]] + from[1..];
      }
    }
  }

  /** Lost without a word: the leaf lies below no source, but its name spells a place below one that moved. */
  ghost predicate Hidden(src: Object, moves: seq<Move>, p: Path) {
    && (exists i :: 0 <= i < |moves| && Moves(src, moves[i]) && moves[i].from <= Split(LeafName(p)))
    && !exists i :: 0 <= i < |moves| && moves[i].from <= p
  }

  /** Conservation: every leaf of any input is readable at its renamed path or left over, never both; and neither
      if and only if it is hidden by a dot in one of its keys. */
  lemma Conservation(src: Object, moves: seq<Move>, p: Path)
    requires WellFormed(moves) && LeafAt(Obj(src), p)
    ensures var st := Run(src, moves);
      var carried := exists i :: 0 <= i < |moves| && Carried(src, st.dst, moves[i], p);
      && !(carried && LeftOver(st.used, src, p))
      && (!carried && !LeftOver(st.used, src, p) <==> Hidden(src, moves, p))
    ensures Plain(p) ==> !Hidden(src, moves, p)
  {
    hide Run, Carried, Moves, Get, LeftOver, LeafName, Incomparable;
    LeftOverMeans(src, moves, p);
    CarriedMeans(src, moves, p);
    forall i | 0 <= i < |moves| && moves[i].from <= p ensures moves[i].from <= Split(LeafName(p)) {
      SourceSpelled(moves[i].from, p);
    }
    if Plain(p) {
      NotAtRoot(src, p);
      NameSplits(p);
    }
  }

  lemma NotAtRoot(src: Object, p: Path)
    requires LeafAt(Obj(src), p)
    ensures p != []
  {
  }

  /** With plain keys the list has no repetition: it names exactly the left-over leaves, strictly sorted. */
  lemma PlainReports(out: seq<string>, used: set<string>, src: Object)
    requires Reports(out, used, src) && PlainKeys(Obj(src))
    ensures StrictlySorted(out)
    ensures forall s :: s in out <==> exists p :: LeftOver(used, src, p) && s == Dotted(p)
  {
    hide ConsumedName, NameBelow;
    var paths :| ReportsPaths(out, used, src, paths);
    var names := Names(paths);
    forall i | 0 <= i < |paths| ensures Plain(paths[i]) && paths[i] != [] && names[i] == Dotted(paths[i]) {
      assert paths[i] in paths;
      NotAtRoot(src, paths[i]);
      NameSplits(paths[i]);
    }
    forall i, j | 0 <= i < j < |names| ensures names[i] != names[j] {
      if names[i] == names[j] {
        PlainDotFree(paths[i]);
        PlainDotFree(paths[j]);
        DottedInjective(paths[i], paths[j]);
      }
    }
    SortedPermutation(out, names);
    forall s ensures s in out <==> exists p :: LeftOver(used, src, p) && s == Dotted(p) {
      assert s in out <==> s in multiset(out);
      assert s in names <==> s in multiset(names);
      if s in names {
        var i :| 0 <= i < |names| && names[i] == s;
        assert paths[i] in paths;
      }
      if p :| LeftOver(used, src, p) && s == Dotted(p) {
        var i :| 0 <= i < |paths| && paths[i] == p;
        assert names[i] == s;
      }
    }
  }

  lemma SortedPermutation(out: seq<string>, names: seq<string>)
    requires Sorted(out) && multiset(out) == multiset(names) && Distinct(names)
    ensures StrictlySorted(out)
  {
    forall i, j | 0 <= i < j < |out| ensures Less(out[i], out[j]) {
      if out[i] == out[j] {
        assert multiset(out)[out[i]] >= 2 by {
          assert out == out[..j] + out[j..];
          assert out[i] in out[..j] && out[j] in out[j..];
        }
        DistinctOnce(names, out[i]);
      }
      LessTrichotomy(out[i], out[j]);
    }
  }

  lemma {:induction false} DistinctOnce(s: seq<string>, x: string)
    requires Distinct(s)
    ensures multiset(s)[x] <= 1
  {
    if s != [] {
      var n := |s| - 1;
      DistinctOnce(s[..n], x);
      assert s == s[..n] + [s[n]];
      if x == s[n] { assert x !in s[..n]; }
    }
  }

  /** Move m put the leaf at q into the output, from the leaf of the input at p. */
  ghost predicate CameFrom(src: Object, dst: Object, m: Move, p: Path, q: Path) {
    LeafAt(Obj(src), p) && m.from <= p && q == m.to + p[|m.from|..] && Carried(src, dst, m, p)
  }

  lemma LastMoveWrote(src: Object, moves: seq<Move>, q: Path) returns (p: Path)
    requires WellFormed(moves) && moves != []
    requires var m := moves[|moves| - 1]; Moves(src, m) && m.to <= q
    requires LeafAt(Obj(Run(src, moves).dst), q)
    ensures CameFrom(src, Run(src, moves).dst, moves[|moves| - 1], p, q)
  {
    var last := |moves| - 1;
    var m, before := moves[last], Run(src, moves[..last]);
    var rest := q[|m.to|..];
    var v := Get(Obj(src), m.from).value;
    assert q == m.to + rest;
    GetWritten(before.dst, m.to, Converted(m, v), rest);
    GetAppend(Obj(src), m.from, rest);
    p := m.from + rest;
    assert p[|m.from|..] == rest;
    LeavesAreCarried(src, moves, last, p);
  }

  lemma EarlierMoveWrote(src: Object, moves: seq<Move>, q: Path)
    requires WellFormed(moves) && moves != []
    requires var m := moves[|moves| - 1]; !(Moves(src, m) && m.to <= q)
    requires LeafAt(Obj(Run(src, moves).dst), q)
    ensures LeafAt(Obj(Run(src, moves[..|moves| - 1]).dst), q)
  {
    var last := |moves| - 1;
    var m, before := moves[last], Run(src, moves[..last]);
    if Moves(src, m) {
      var v := Converted(m, Get(Obj(src), m.from).value);
      if q <= m.to && q != m.to {
        GetAbove(before.dst, m.to, v, q);
      } else {
        GetElsewhere(before.dst, m.to, v, q);
      }
    }
  }

  /** Nothing is invented: every leaf of the output came from a leaf of the input by one of the moves. */
  lemma {:induction false} NothingInvented(src: Object, moves: seq<Move>, q: Path)
    requires WellFormed(moves) && LeafAt(Obj(Run(src, moves).dst), q)
    ensures exists i, p :: 0 <= i < |moves| && CameFrom(src, Run(src, moves).dst, moves[i], p, q)
    decreases |moves|
  {
    hide Step, Get, Incomparable, Carried;
    if moves == [] {
      NothingYet(src, q);
    } else {
      var last := |moves| - 1;
      if Moves(src, moves[last]) && moves[last].to <= q {
        var p := LastMoveWrote(src, moves, q);
      } else {
        EarlierMoveWrote(src, moves, q);
        NothingInvented(src, moves[..last], q);
        var i, p :| 0 <= i < last && CameFrom(src, Run(src, moves[..last]).dst, moves[..last][i], p, q);
        LeavesAreCarried(src, moves, i, p);
        assert CameFrom(src, Run(src, moves).dst, moves[i], p, q);
      }
    }
  }

  /** Where a move writes, the result holds a leaf exactly when the input held it at the source. */
  lemma ReadBack(src: Object, moves: seq<Move>, i: nat, rest: Path, v: Value)
    requires WellFormed(moves) && i < |moves| && !moves[i].percentage && LeafValue(v)
    ensures Get(Obj(Run(src, moves).dst), moves[i].to + rest) == Some(v) <==>
              Get(Obj(src), moves[i].from + rest) == Some(v)
  {
    var m, dst := moves[i], Run(src, moves).dst;
    var p, q := m.from + rest, m.to + rest;
    assert p[|m.from|..] == rest && q[|m.to|..] == rest;
    if Get(Obj(src), p) == Some(v) { LeavesAreCarried(src, moves, i, p); }
    if Get(Obj(dst), q) == Some(v) {
      NothingInvented(src, moves, q);
      var j, p' :| 0 <= j < |moves| && CameFrom(src, dst, moves[j], p', q);
      SameTarget(moves, j, i, p'[|moves[j].from|..], rest);
      assert p' == m.from + p'[|m.from|..];
    }
  }

  lemma SameTarget(moves: seq<Move>, i: nat, j: nat, p: Path, q: Path)
    requires WellFormed(moves) && i < |moves| && j < |moves| && moves[i].to + p == moves[j].to + q
    ensures i == j && p == q
  {
    var a, b := moves[i].to, moves[j].to;
    assert (a + p)[..|a|] == a && (b + q)[..|b|] == b;
    assert |a| <= |b| ==> a == b[..|a|];
    assert |b| <= |a| ==> b == a[..|b|];
    assert (a + p)[|a|..] == p && (b + q)[|b|..] == q;
  }

  lemma NothingYet(src: Object, q: Path)
    ensures !LeafAt(Obj(Run(src, []).dst), q)
  {
  }

  /** A key that holds a dot can spell a path: once that path is consumed, the leaf below the key is hidden. */
  lemma DottedKeyVanishes(a: string, b: string, to: Path)
    requires PlainKey(a) && PlainKey(b) && to != [] && Plain(to)
    ensures var key, m := a + "." + b, Move([a, b], to, false);
      var src := map[a := Obj(map[b := Int(1)]), key := Int(2)];
      WellFormed([m]) && LeafAt(Obj(src), [key]) && Hidden(src, [m], [key])
  {
    var key, m := a + "." + b, Move([a, b], to, false);
    var below := map[b := Int(1)];
    var src := map[a := Obj(below), key := Int(2)];
    assert |key| > |a| && [a, b][1..] == [b] && [b][1..] == [] && [key][1..] == [];
    assert Get(Obj(src), m.from) == Get(Obj(below), [b]) == Some(Int(1));
    assert LeafName([key]) == NameBelow(key, []) == key;
    SplitAtDot(a, b);
    SplitKey(a);
    SplitKey(b);
    assert m.from <= Split(key) && Moves(src, [m][0]);
    assert !([a, b] <= [key]);
  }
}
