/** The apply checklist (report.go): output directories grouped, ordered, and split into commands. */
module ApplyOrder {
  import opened Text

  // ---- paths -----------------------------------------------------------------

  /** filepath.Dir of a slash-separated relative path. */
  function RelDir(path: string): string {
    var i := LastIndex(path, "/");
    if i == -1 then "." else path[..i]
  }

  /** path.Base. */
  function LastSegment(dir: string): string {
    dir[LastIndex(dir, "/") + 1..]
  }

  // ---- order -----------------------------------------------------------------

  const BACKENDS := "backends"
  const MESH := "mesh"

  function SubRank(sub: string): int {
    if sub == BACKENDS then -1
    else if sub == "resiliency" then 0
    else if sub == "routing" then 1
    else if sub == "zero-trust" then 2
    else if sub == "observability" then 3
    else if sub == "gateway" || sub == "workload" || sub == "other" then 4
    else if sub == MESH then 99
    else 50
  }

  /** applyDirCPRank: global and standalone control planes, then zones, then the rest. */
  function ContextRank(d: string): int {
    var lower := ToLower(d);
    if Contains(lower, "global") || Contains(lower, "standalone") then 0
    else if Contains(lower, "zone") then 1
    else if d == "" then 3
    else 2
  }

  datatype DirInfo = DirInfo(relDir: string, files: seq<string>, replace: set<string>) {
    function Context(): string { FirstSegment(relDir) }
    function Subfolder(): string { LastSegment(relDir) }
  }

  datatype Key = Key(contextRank: int, context: string, subRank: int, relDir: string)

  function KeyOf(d: DirInfo): Key {
    Key(ContextRank(d.Context()), d.Context(), SubRank(d.Subfolder()), d.relDir)
  }

  /** The comparator of collectApplyDirs. */
  predicate KeyBefore(a: Key, b: Key) {
    if a.contextRank != b.contextRank then a.contextRank < b.contextRank
    else if a.context != b.context then Less(a.context, b.context)
    else if a.subRank != b.subRank then a.subRank < b.subRank
    else Less(a.relDir, b.relDir)
  }

  predicate Before(a: DirInfo, b: DirInfo) {
    KeyBefore(KeyOf(a), KeyOf(b))
  }

  lemma BeforeTotal(a: DirInfo, b: DirInfo)
    ensures !(Before(a, b) && Before(b, a)) && !Before(a, a)
    ensures a.relDir != b.relDir ==> Before(a, b) || Before(b, a)
  {
    hide ContextRank, SubRank, FirstSegment, LastSegment;
    LessTrichotomy(a.Context(), b.Context());
    LessTrichotomy(a.relDir, b.relDir);
    LessTrichotomy(a.relDir, a.relDir);
  }

  /** The comparator is a strict total order on distinct directories. */
  lemma BeforeTransitive(a: DirInfo, b: DirInfo, c: DirInfo)
    requires Before(a, b) && Before(b, c)
    ensures Before(a, c)
  {
    hide ContextRank, SubRank, FirstSegment, LastSegment;
    LessTrichotomy(a.Context(), b.Context());
    LessTrichotomy(b.Context(), c.Context());
    LessTrichotomy(a.Context(), c.Context());
    if a.Context() != b.Context() && b.Context() != c.Context() && Less(a.Context(), b.Context()) &&
        Less(b.Context(), c.Context()) {
      LessTransitive(a.Context(), b.Context(), c.Context());
    }
    if Less(a.relDir, b.relDir) && Less(b.relDir, c.relDir) { LessTransitive(a.relDir, b.relDir, c.relDir); }
  }

  // ---- grouping ----------------------------------------------------------------

  /** A FileReport: the paths it added to the apply tree, and those that rewrite an existing object. */
  datatype Report = Report(outputs: seq<string>, replaced: set<string>)

  function Produced(rs: seq<Report>): seq<string> {
    if rs == [] then [] else Produced(rs[..|rs| - 1]) + rs[|rs| - 1].outputs
  }

  /** The paths in a directory, in the order they were produced. */
  function FilesIn(paths: seq<string>, dir: string): seq<string> {
    if paths == [] then []
    else
      var rest, last := FilesIn(paths[..|paths| - 1], dir), paths[|paths| - 1];
      if RelDir(last) == dir then rest + [last] else rest
  }

  ghost predicate ReplacedIn(rs: seq<Report>, p: string, dir: string) {
    exists i :: 0 <= i < |rs| && p in rs[i].outputs && p in rs[i].replaced && RelDir(p) == dir
  }

  type Dirs = map<string, DirInfo>

  /** dirMap and dirOrder hold every directory seen so far once, with its files. */
  ghost predicate Groups(dirs: Dirs, order: seq<string>, paths: seq<string>) {
    && Distinct(order) && (forall d :: d in order <==> d in dirs)
    && (forall d :: d in dirs <==> d != "." && FilesIn(paths, d) != [])
    && forall d :: d in dirs ==> dirs[d].relDir == d && dirs[d].files == FilesIn(paths, d)
  }

  /** One step of the grouping loop. */
  method AddPath(dirs: Dirs, order: seq<string>, path: string, replaced: bool, ghost before: seq<string>)
    returns (dirs': Dirs, order': seq<string>)
    requires Groups(dirs, order, before)
    ensures Groups(dirs', order', before + [path])
    ensures forall d, p :: d in dirs' && p in dirs'[d].replace <==>
              (d in dirs && p in dirs[d].replace) || (replaced && p == path && d == RelDir(path) && d != ".")
  {
    hide RelDir;
    var dir := RelDir(path);
    assert (before + [path])[..|before|] == before;
    if dir == "." { return dirs, order; }
    dirs', order' := dirs, order;
    if dir !in dirs {
      dirs' := dirs[dir := DirInfo(dir, [], {})];
      order' := order + [dir];
    }
    var info := dirs'[dir];
    var replace := if replaced then info.replace + {path} else info.replace;
    dirs' := dirs'[dir := info.(files := info.files + [path], replace := replace)];
  }

  /** The grouping loops of collectApplyDirs. */
  method GroupOutputs(rs: seq<Report>) returns (dirs: Dirs, order: seq<string>)
    ensures Groups(dirs, order, Produced(rs))
    ensures forall d, p :: d in dirs && p in dirs[d].replace <==> d != "." && ReplacedIn(rs, p, d)
  {
    hide RelDir, Groups;
    dirs, order := map[], [];
    NothingGrouped();
    for i := 0 to |rs|
      invariant Groups(dirs, order, Produced(rs[..i]))
      invariant forall d, p :: d in dirs && p in dirs[d].replace <==> d != "." && ReplacedIn(rs[..i], p, d)
    {
      assert rs[..i + 1][..i] == rs[..i];
      var paths := rs[i].outputs;
      assert Produced(rs[..i]) + paths[..0] == Produced(rs[..i]);
      for j := 0 to |paths|
        invariant Groups(dirs, order, Produced(rs[..i]) + paths[..j])
        invariant forall d, p :: d in dirs && p in dirs[d].replace <==>
                    d != "." && (ReplacedIn(rs[..i], p, d) ||
                        (p in paths[..j] && p in rs[i].replaced && RelDir(p) == d))
      {
        assert Produced(rs[..i]) + paths[..j + 1] == Produced(rs[..i]) + paths[..j] + [paths[j]];
        assert paths[..j + 1] == paths[..j] + [paths[j]];
        dirs, order := AddPath(dirs, order, paths[j], paths[j] in rs[i].replaced, Produced(rs[..i]) + paths[..j]);
      }
      assert paths[..|paths|] == paths;
      assert Produced(rs[..i + 1]) == Produced(rs[..i]) + paths;
      forall d, p ensures ReplacedIn(rs[..i + 1], p, d) <==>
        ReplacedIn(rs[..i], p, d) || (p in paths && p in rs[i].replaced && RelDir(p) == d)
      {
        ReplacedOneMore(rs, i, p, d);
      }
    }
    assert rs[..|rs|] == rs;
  }

  lemma NothingGrouped()
    ensures Groups(map[], [], [])
  {
  }

  lemma ReplacedOneMore(rs: seq<Report>, i: nat, p: string, d: string)
    requires i < |rs|
    ensures ReplacedIn(rs[..i + 1], p, d) <==>
              ReplacedIn(rs[..i], p, d) || (p in rs[i].outputs && p in rs[i].replaced && RelDir(p) == d)
  {
    hide RelDir;
    assert forall k :: 0 <= k < i ==> rs[..i][k] == rs[..i + 1][k];
    assert rs[..i + 1][i] == rs[i];
    if ReplacedIn(rs[..i], p, d) {
      var k :| 0 <= k < i && p in rs[..i][k].outputs && p in rs[..i][k].replaced && RelDir(p) == d;
      assert p in rs[..i + 1][k].outputs;
    }
  }

  // ---- sorting -------------------------------------------------------------------

  ghost predicate Ordered(ds: seq<DirInfo>) {
    forall i, j :: 0 <= i < j < |ds| ==> Before(ds[i], ds[j])
  }

  ghost predicate DistinctDirs(ds: seq<DirInfo>) {
    forall i, j :: 0 <= i < j < |ds| ==> ds[i].relDir != ds[j].relDir
  }

  method InsertDir(ds: seq<DirInfo>, d: DirInfo) returns (out: seq<DirInfo>)
    requires Ordered(ds) && forall i :: 0 <= i < |ds| ==> ds[i].relDir != d.relDir
    ensures Ordered(out) && multiset(out) == multiset(ds) + multiset{d}
  {
    hide Before;
    var k := |ds|;
    while k > 0 && Before(d, ds[k - 1])
      invariant 0 <= k <= |ds|
      invariant forall j :: k <= j < |ds| ==> Before(d, ds[j])
    {
      k := k - 1;
    }
    if k > 0 {
      BeforeTotal(ds[k - 1], d);
      forall i | 0 <= i < k ensures Before(ds[i], d) {
        if i < k - 1 { BeforeTransitive(ds[i], ds[k - 1], d); }
      }
    }
    Inserted(ds, d, k);
    out := ds[..k] + [d] + ds[k..];
  }

  lemma Inserted(ds: seq<DirInfo>, d: DirInfo, k: nat)
    requires Ordered(ds) && k <= |ds|
    requires (forall i :: 0 <= i < k ==> Before(ds[i], d)) && forall j :: k <= j < |ds| ==> Before(d, ds[j])
    ensures Ordered(ds[..k] + [d] + ds[k..]) && multiset(ds[..k] + [d] + ds[k..]) == multiset(ds) + multiset{d}
  {
    hide Before;
    assert ds == ds[..k] + ds[k..];
  }

  /** sort.SliceStable with the comparator. */
  method SortDirs(ds: seq<DirInfo>) returns (out: seq<DirInfo>)
    requires DistinctDirs(ds)
    ensures Ordered(out) && multiset(out) == multiset(ds)
  {
    hide Before;
    out := [];
    for i := 0 to |ds|
      invariant Ordered(out) && multiset(out) == multiset(ds[..i])
    {
      forall k | 0 <= k < |out| ensures out[k].relDir != ds[i].relDir {
        assert out[k] in multiset(ds[..i]);
        assert out[k] in ds[..i];
      }
      assert ds[..i + 1] == ds[..i] + [ds[i]];
      out := InsertDir(out, ds[i]);
    }
    assert ds[..|ds|] == ds;
  }

  /** collectApplyDirs: every directory with output once, in order; its files are exactly the paths produced
      there, as often as they were produced. */
  method CollectApplyDirs(rs: seq<Report>) returns (out: seq<DirInfo>)
    ensures Ordered(out) && DistinctDirs(out)
    ensures forall d :: (exists i :: 0 <= i < |out| && out[i].relDir == d) <==>
              d != "." && FilesIn(Produced(rs), d) != []
    ensures forall i :: 0 <= i < |out| ==> out[i].files == FilesIn(Produced(rs), out[i].relDir)
    ensures forall i, p :: 0 <= i < |out| ==> (p in out[i].replace <==> ReplacedIn(rs, p, out[i].relDir))
  {
    hide RelDir, Before;
    var dirs, order := GroupOutputs(rs);
    var infos := [];
    for i := 0 to |order|
      invariant |infos| == i && forall j :: 0 <= j < i ==> order[j] in dirs && infos[j] == dirs[order[j]]
    {
      assert order[i] in order;
      infos := infos + [dirs[order[i]]];
    }
    out := SortDirs(infos);
    forall x ensures x in out <==> x in infos {
      assert x in out <==> x in multiset(out);
      assert x in infos <==> x in multiset(infos);
    }
    forall i | 0 <= i < |out| ensures out[i].relDir in dirs && out[i] == dirs[out[i].relDir] {
      assert out[i] in infos;
    }
    forall d ensures (exists i :: 0 <= i < |out| && out[i].relDir == d) <==> d in dirs {
      if d in dirs {
        assert d in order;
        var j :| 0 <= j < |order| && order[j] == d;
        assert infos[j] in out;
        var i :| 0 <= i < |out| && out[i] == infos[j];
      }
    }
    OrderedIsDistinct(out);
  }

  lemma OrderedIsDistinct(ds: seq<DirInfo>)
    requires Ordered(ds)
    ensures DistinctDirs(ds)
  {
    forall i, j | 0 <= i < j < |ds| ensures ds[i].relDir != ds[j].relDir {
      if ds[i].relDir == ds[j].relDir { SameDirNotBefore(ds[i], ds[j]); }
    }
  }

  lemma SameDirNotBefore(a: DirInfo, b: DirInfo)
    requires a.relDir == b.relDir
    ensures !Before(a, b)
  {
    LessTrichotomy(a.relDir, a.relDir);
  }

  /** What was produced is what the reports added, each path as often as they did. */
  lemma {:induction false} ProducedFrom(rs: seq<Report>, p: string)
    ensures multiset(Produced(rs))[p] == Times(rs, p)
    ensures p in Produced(rs) <==> exists i :: 0 <= i < |rs| && p in rs[i].outputs
  {
    if rs != [] {
      var init, last := rs[..|rs| - 1], rs[|rs| - 1];
      ProducedFrom(init, p);
      if i :| 0 <= i < |init| && p in init[i].outputs { assert rs[i] == init[i]; }
      if i :| 0 <= i < |rs| && p in rs[i].outputs { if i < |init| { assert init[i] == rs[i]; } }
    }
  }

  function Times(rs: seq<Report>, p: string): nat {
    if rs == [] then 0 else Times(rs[..|rs| - 1], p) + multiset(rs[|rs| - 1].outputs)[p]
  }

  /** A path of a directory is listed there as often as it was produced, and nowhere else. */
  lemma {:induction false} ListedAsProduced(paths: seq<string>, dir: string, p: string)
    ensures multiset(FilesIn(paths, dir))[p] == if RelDir(p) == dir then multiset(paths)[p] else 0
  {
    hide RelDir;
    if paths != [] {
      ListedAsProduced(paths[..|paths| - 1], dir, p);
      assert paths == paths[..|paths| - 1] + [paths[|paths| - 1]];
    }
  }

  // ---- reading the list ------------------------------------------------------------

  /** The directory of a path is what precedes its last slash. */
  lemma RelDirIs(dir: string, file: string)
    requires '/' !in file
    ensures RelDir(dir + "/" + file) == dir && RelDir(file) == "."
  {
    assert "/" == ['/'];
    LastIndexOfChar(dir, '/', file);
    NoCharNoIndex(file, '/');
    assert (dir + "/" + file)[..|dir|] == dir;
  }

  /** The subfolder of a directory is its last segment; its context is its first. */
  lemma SubfolderIs(above: string, subfolder: string)
    requires '/' !in subfolder
    ensures LastSegment(above + "/" + subfolder) == subfolder && LastSegment(subfolder) == subfolder
  {
    assert "/" == ['/'];
    LastIndexOfChar(above, '/', subfolder);
    NoCharNoIndex(subfolder, '/');
    assert (above + "/" + subfolder)[|above| + 1..] == subfolder;
  }

  predicate GlobalContext(context: string) {
    Contains(ToLower(context), "global") || Contains(ToLower(context), "standalone")
  }

  predicate ZoneContext(context: string) {
    !GlobalContext(context) && Contains(ToLower(context), "zone")
  }

  /** Global and standalone control planes come before zones, zones before the rest, and output without a context is
      last; the directories of one context stand together. */
  lemma ContextsInOrder(ds: seq<DirInfo>, i: nat, j: nat)
    requires Ordered(ds) && i < j < |ds|
    ensures var a, b := ds[i].Context(), ds[j].Context();
      && (GlobalContext(b) ==> GlobalContext(a))
      && (ZoneContext(b) ==> GlobalContext(a) || ZoneContext(a))
      && (a == "" ==> b == "")
      && (a == b ==> forall k :: i < k < j ==> ds[k].Context() == a)
  {
    hide SubRank, FirstSegment, LastSegment, ToLower;
    assert Before(ds[i], ds[j]);
    NoContext();
    if ds[i].Context() == ds[j].Context() {
      forall k | i < k < j ensures ds[k].Context() == ds[i].Context() {
        assert Before(ds[i], ds[k]) && Before(ds[k], ds[j]);
        LessTrichotomy(ds[i].Context(), ds[k].Context());
      }
    }
  }

  lemma NoContext()
    ensures !GlobalContext("") && !ZoneContext("")
  {
    assert ToLower("") == "";
  }

  /** The subfolders of a context in the order they are applied; those at the same place go by path, unknown ones come
      after all of these. */
  const FOLDERS: seq<set<string>> :=
    [{BACKENDS}, {"resiliency"}, {"routing"}, {"zero-trust"}, {"observability"}, {"gateway", "workload", "other"}]

  ghost predicate FolderAt(sub: string, n: int) {
    0 <= n < |FOLDERS| && sub in FOLDERS[n]
  }

  lemma SubfoldersInOrder(ds: seq<DirInfo>, i: nat, j: nat)
    requires Ordered(ds) && i < j < |ds| && ds[i].Context() == ds[j].Context()
    ensures forall n :: FolderAt(ds[j].Subfolder(), n) ==> exists m :: 0 <= m <= n && FolderAt(ds[i].Subfolder(), m)
    ensures ds[i].Subfolder() == MESH ==> ds[j].Subfolder() == MESH
  {
    hide ContextRank, FirstSegment, LastSegment, FolderAt;
    assert Before(ds[i], ds[j]);
    RankIsPlace(ds[i].Subfolder());
    RankIsPlace(ds[j].Subfolder());
  }

  lemma RankIsPlace(sub: string)
    ensures forall n :: FolderAt(sub, n) <==> SubRank(sub) == n - 1 < 5
    ensures -1 <= SubRank(sub) && (SubRank(sub) < 5 ==> FolderAt(sub, SubRank(sub) + 1))
    ensures SubRank(sub) <= 99 && (SubRank(sub) == 99 <==> sub == MESH)
  {
    assert BACKENDS[0] == 'b' && "resiliency"[1] == 'e' && "routing"[1] == 'o' && |"routing"| == 7;
    assert |"zero-trust"| == 10 && "zero-trust"[0] == 'z' && "resiliency"[0] == 'r' && "routing"[0] == 'r';
    assert |"observability"| == 13 && |"gateway"| == 7 && "gateway"[0] == 'g' && |"workload"| == 8;
    assert "workload"[0] == 'w' && |"other"| == 5 && MESH[0] == 'm' && |BACKENDS| == 8 && |MESH| == 4;
  }

  /** Within a context the backends come first: nothing of the same context precedes them. */
  lemma BackendsFirst(ds: seq<DirInfo>, i: nat, j: nat)
    requires Ordered(ds) && i < j < |ds|
    requires ds[i].Context() == ds[j].Context() && ds[j].Subfolder() == BACKENDS
    ensures ds[i].Subfolder() == BACKENDS
  {
    hide ContextRank, FirstSegment, LastSegment;
    assert Before(ds[i], ds[j]);
    OnlyBackendsRankLowest(ds[i].Subfolder());
  }

  lemma OnlyBackendsRankLowest(sub: string)
    ensures SubRank(sub) <= -1 <==> sub == BACKENDS
  {
  }

  function OfMesh(ds: seq<DirInfo>, mesh: bool): seq<DirInfo> {
    if ds == [] then []
    else
      var rest, last := OfMesh(ds[..|ds| - 1], mesh), ds[|ds| - 1];
      if (last.Subfolder() == MESH) == mesh then rest + [last] else rest
  }

  lemma {:induction false} OfMeshSplits(ds: seq<DirInfo>)
    ensures multiset(OfMesh(ds, false)) + multiset(OfMesh(ds, true)) == multiset(ds)
  {
    hide LastSegment;
    if ds != [] {
      OfMeshSplits(ds[..|ds| - 1]);
      assert ds == ds[..|ds| - 1] + [ds[|ds| - 1]];
    }
  }

  lemma {:induction false} OfMeshOnly(ds: seq<DirInfo>, mesh: bool)
    ensures forall k :: 0 <= k < |OfMesh(ds, mesh)| ==> (OfMesh(ds, mesh)[k].Subfolder() == MESH) == mesh
  {
    hide LastSegment;
    if ds != [] { OfMeshOnly(ds[..|ds| - 1], mesh); }
  }

  lemma {:induction false} OfMeshFrom(ds: seq<DirInfo>, mesh: bool, d: DirInfo)
    ensures d in OfMesh(ds, mesh) <==> d in ds && (d.Subfolder() == MESH) == mesh
  {
    hide LastSegment;
    if ds != [] { OfMeshFrom(ds[..|ds| - 1], mesh, d); }
  }

  /** Either half of the checklist keeps the order, so the backends still come first in each context. */
  lemma {:induction false} OfMeshKeepsOrder(ds: seq<DirInfo>, mesh: bool)
    requires Ordered(ds)
    ensures Ordered(OfMesh(ds, mesh))
  {
    hide LastSegment, Before;
    if ds != [] {
      var before, last := ds[..|ds| - 1], ds[|ds| - 1];
      OfMeshKeepsOrder(before, mesh);
      forall i | 0 <= i < |OfMesh(before, mesh)| ensures Before(OfMesh(before, mesh)[i], last) {
        OfMeshFrom(before, mesh, OfMesh(before, mesh)[i]);
      }
    }
  }

  /** The checklist applies mesh directories after all others, and leaves none out. */
  method SplitMesh(ds: seq<DirInfo>) returns (plan: seq<DirInfo>)
    ensures plan == OfMesh(ds, false) + OfMesh(ds, true)
    ensures multiset(plan) == multiset(ds)
    ensures forall i, j :: 0 <= i < j < |plan| && plan[i].Subfolder() == MESH ==> plan[j].Subfolder() == MESH
  {
    hide LastSegment;
    var nonMesh, mesh := [], [];
    for i := 0 to |ds|
      invariant nonMesh == OfMesh(ds[..i], false) && mesh == OfMesh(ds[..i], true)
    {
      assert ds[..i + 1][..i] == ds[..i];
      if ds[i].Subfolder() == MESH { mesh := mesh + [ds[i]]; } else { nonMesh := nonMesh + [ds[i]]; }
    }
    assert ds[..|ds|] == ds;
    OfMeshSplits(ds);
    OfMeshOnly(ds, false);
    OfMeshOnly(ds, true);
    plan := nonMesh + mesh;
  }

  datatype Command = Kumactl(file: string) | ApplyDir(dir: string) | Replace(file: string) | Apply(file: string)

  function Where(files: seq<string>, replace: set<string>, wanted: bool): seq<string> {
    if files == [] then []
    else
      var rest, last := Where(files[..|files| - 1], replace, wanted), files[|files| - 1];
      if (last in replace) == wanted then rest + [last] else rest
  }

  lemma {:induction false} WhereSplits(files: seq<string>, replace: set<string>)
    ensures multiset(Where(files, replace, true)) + multiset(Where(files, replace, false)) == multiset(files)
    ensures forall f :: f in Where(files, replace, true) ==> f in replace
    ensures forall f :: f in Where(files, replace, false) ==> f !in replace
  {
    if files != [] {
      WhereSplits(files[..|files| - 1], replace);
      assert files == files[..|files| - 1] + [files[|files| - 1]];
    }
  }

  /** writeApplyDirCommands: with kubectl, files that rewrite an existing object are replaced and the others
      applied, each once; a directory without such files is applied whole. */
  method ApplyDirCommands(d: DirInfo, kumactl: bool) returns (commands: seq<Command>)
    ensures kumactl ==> commands == seq(|d.files|, i requires 0 <= i < |d.files| => Kumactl(d.files[i]))
    ensures !kumactl && d.replace == {} ==> commands == [ApplyDir(d.relDir)]
    ensures !kumactl && d.replace != {} ==>
              commands == Commands(Where(d.files, d.replace, true), true) +
                  Commands(Where(d.files, d.replace, false), false)
  {
    commands := [];
    if kumactl {
      for i := 0 to |d.files|
        invariant |commands| == i && forall j :: 0 <= j < i ==> commands[j] == Kumactl(d.files[j])
      {
        commands := commands + [Kumactl(d.files[i])];
      }
      return;
    }
    if d.replace == {} { return [ApplyDir(d.relDir)]; }
    for i := 0 to |d.files|
      invariant commands == Commands(Where(d.files[..i], d.replace, true), true)
    {
      assert d.files[..i + 1][..i] == d.files[..i];
      if d.files[i] in d.replace { commands := commands + [Replace(d.files[i])]; }
    }
    assert d.files[..|d.files|] == d.files;
    var applies := [];
    for i := 0 to |d.files|
      invariant applies == Commands(Where(d.files[..i], d.replace, false), false)
    {
      assert d.files[..i + 1][..i] == d.files[..i];
      if d.files[i] !in d.replace { applies := applies + [Apply(d.files[i])]; }
    }
    commands := commands + applies;
  }

  function Commands(files: seq<string>, replace: bool): seq<Command> {
    seq(|files|, i requires 0 <= i < |files| => if replace then Replace(files[i]) else Apply(files[i]))
  }

  /** Read off the files: where some rewrite an existing object, each of those is replaced and each other one applied,
      as often as it is listed, and nothing else is done; replacing comes first. */
  lemma CommandsAre(files: seq<string>, replace: set<string>, f: string)
    ensures var first, others := Commands(Where(files, replace, true), true),
                                 Commands(Where(files, replace, false), false);
      && multiset(first)[Replace(f)] == (if f in replace then multiset(files)[f] else 0)
      && multiset(others)[Apply(f)] == (if f in replace then 0 else multiset(files)[f])
      && (forall c :: c in first ==> c.Replace?) && (forall c :: c in others ==> c.Apply?)
  {
    WhereTimes(files, replace, f);
    CommandsTimes(Where(files, replace, true), true, f);
    CommandsTimes(Where(files, replace, false), false, f);
  }

  lemma {:induction false} WhereTimes(files: seq<string>, replace: set<string>, f: string)
    ensures multiset(Where(files, replace, true))[f] == if f in replace then multiset(files)[f] else 0
    ensures multiset(Where(files, replace, false))[f] == if f in replace then 0 else multiset(files)[f]
  {
    if files != [] {
      WhereTimes(files[..|files| - 1], replace, f);
      assert files == files[..|files| - 1] + [files[|files| - 1]];
    }
  }

  lemma {:induction false} CommandsTimes(files: seq<string>, replace: bool, f: string)
    ensures multiset(Commands(files, replace))[if replace then Replace(f) else Apply(f)] == multiset(files)[f]
    ensures forall c :: c in Commands(files, replace) ==> if replace then c.Replace? else c.Apply?
  {
    if files != [] {
      var init, last := files[..|files| - 1], files[|files| - 1];
      CommandsTimes(init, replace, f);
      assert files == init + [last];
      assert Commands(files, replace) == Commands(init, replace) + Commands([last], replace);
      assert Commands([last], replace) == [if replace then Replace(last) else Apply(last)];
    }
  }
}
