/** convertTimeoutConf (legacyconf.go): two idle timeouts collapse onto one field, and the gRPC timeouts
    survive only where the http ones are not set. */
module Timeouts {
  import opened Text
  import opened Json
  import opened Paths
  import opened ConfMapper

  const HTTP := "http"
  const GRPC := "grpc"
  const TCP := "tcp"
  const IDLE := "idleTimeout"
  const STREAM := "streamIdleTimeout"
  const DURATION := "maxStreamDuration"
  const REQUEST := "requestTimeout"
  const CONNECT := "connectTimeout"
  const CONNECTION := "connectionTimeout"

  const CONNECT_MOVE := Move([CONNECT], [CONNECTION], false)
  const TCP_IDLE := Move([TCP, IDLE], [IDLE], false)
  const HTTP_IDLE := Move([HTTP, IDLE], [IDLE], false)

  function Http(key: string): Move {
    Move([HTTP, key], [HTTP, key], false)
  }

  function Grpc(key: string): Move {
    Move([GRPC, key], [HTTP, key], false)
  }

  /** Where each legacy timeout would go. */
  const RENAMES: seq<Move> :=
    [CONNECT_MOVE, TCP_IDLE, Http(REQUEST), Http(STREAM), Http(DURATION), HTTP_IDLE, Grpc(STREAM), Grpc(DURATION)]

  predicate Set?(conf: Object, m: Move) {
    Get(Obj(conf), m.from).Some?
  }

  /** The positions of RENAMES that decide the result, one for each of its five fields; tcp: the tcp idle
      timeout moves; stream, duration: the http field is present. */
  function Positions(tcp: bool, stream: bool, duration: bool): (ps: seq<nat>)
    ensures |ps| == 5 && forall k :: 0 <= k < 5 ==> ps[k] < 8
    ensures forall k, l :: 0 <= k < l < 5 ==> ps[k] < ps[l] && FIELDS[ps[k]] != FIELDS[ps[l]]
  {
    if tcp then
      if stream then if duration then [0, 1, 2, 3, 4] else [0, 1, 2, 3, 7]
      else if duration then [0, 1, 2, 4, 6] else [0, 1, 2, 6, 7]
    else
      if stream then if duration then [0, 2, 3, 4, 5] else [0, 2, 3, 5, 7]
      else if duration then [0, 2, 4, 5, 6] else [0, 2, 5, 6, 7]
  }

  /** The field of the result that each entry of RENAMES writes. */
  const FIELDS: seq<int> := [0, 1, 2, 3, 4, 1, 3, 4]

  function Rows(ps: seq<nat>): seq<Move>
    requires |ps| == 5 && forall k :: 0 <= k < 5 ==> ps[k] < 8
  {
    seq(5, k requires 0 <= k < 5 => RENAMES[ps[k]])
  }

  /** The moves that decide the result for this conf. */
  function Effective(conf: Object): seq<Move> {
    Rows(Positions(Moves(conf, TCP_IDLE), Set?(conf, Http(STREAM)), Set?(conf, Http(DURATION))))
  }

  function Used(conf: Object, m: Move): set<string> {
    if Moves(conf, m) then {Dotted(m.from)} else {}
  }

  /** Every source is consumed, written or not. */
  function AllUsed(conf: Object): set<string> {
    Used(conf, RENAMES[0]) + Used(conf, RENAMES[1]) + Used(conf, RENAMES[2]) + Used(conf, RENAMES[3])
    + Used(conf, RENAMES[4]) + Used(conf, RENAMES[5]) + Used(conf, RENAMES[6]) + Used(conf, RENAMES[7])
  }

  function Final(conf: Object): State {
    NonEmptyTargets(conf);
    State(Run(conf, Effective(conf)).dst, AllUsed(conf))
  }

  lemma NonEmptyTargets(conf: Object)
    ensures forall i :: 0 <= i < |Effective(conf)| ==> Effective(conf)[i].to != []
  {
    hide RENAMES;
    FieldsOfRenames();
  }

  lemma DistinctNames()
    ensures HTTP != GRPC && HTTP != TCP && GRPC != TCP && CONNECT != HTTP && CONNECT != GRPC && CONNECT != TCP
    ensures IDLE != HTTP && CONNECTION != HTTP && CONNECTION != IDLE
    ensures REQUEST != STREAM && REQUEST != DURATION && STREAM != DURATION
    ensures IDLE != STREAM && IDLE != DURATION && IDLE != REQUEST
  {
    assert HTTP[0] != GRPC[0] && HTTP[0] != TCP[0];
    assert |IDLE| == 11 && |REQUEST| == 14 && |STREAM| == 17 && |DURATION| == 17 && STREAM[1] != DURATION[1];
  }

  lemma PlainNames()
    ensures PlainKey(HTTP) && PlainKey(GRPC) && PlainKey(TCP) && PlainKey(IDLE) && PlainKey(STREAM)
    ensures PlainKey(DURATION) && PlainKey(REQUEST) && PlainKey(CONNECT) && PlainKey(CONNECTION)
  {
  }

  /** Paths of one or two segments that part ways. */
  lemma PartWays(p: Path, q: Path)
    requires p != [] && q != [] && (p[0] != q[0] || (|p| > 1 && |q| > 1 && p[1] != q[1]))
    ensures Incomparable(p, q)
  {
  }

  predicate Apart(a: Move, b: Move) {
    Incomparable(a.from, b.from) && Incomparable(a.to, b.to)
  }

  /** Which field of the result a move writes. */
  function Field(m: Move): int
    requires m.to != []
  {
    if m.to[0] == CONNECTION then 0 else if m.to[0] == IDLE then 1
    else if |m.to| == 1 then 5
    else if m.to[1] == REQUEST then 2 else if m.to[1] == STREAM then 3 else 4
  }

  lemma FieldsOfRenames()
    ensures |RENAMES| == 8
    ensures forall i :: 0 <= i < |RENAMES| ==>
              && RENAMES[i].from != [] && RENAMES[i].to != [] && Plain(RENAMES[i].from) && Plain(RENAMES[i].to)
              && Field(RENAMES[i]) == FIELDS[i]
  {
    hide HTTP, GRPC, TCP, IDLE, STREAM, DURATION, REQUEST, CONNECT, CONNECTION, PlainKey;
    DistinctNames();
    PlainNames();
  }

  lemma DifferentFieldsApart(i: nat, j: nat)
    requires i < j < |RENAMES| && FIELDS[i] != FIELDS[j]
    ensures Apart(RENAMES[i], RENAMES[j])
  {
    hide HTTP, GRPC, TCP, IDLE, STREAM, DURATION, REQUEST, CONNECT, CONNECTION, PlainKey, Incomparable;
    DistinctNames();
    PartWays(RENAMES[i].from, RENAMES[j].from);
    PartWays(RENAMES[i].to, RENAMES[j].to);
  }

  lemma EffectiveWellFormed(conf: Object)
    ensures WellFormed(Effective(conf))
  {
    hide RENAMES, Moves, Set?, Positions, Plain, Incomparable;
    var ps := Positions(Moves(conf, TCP_IDLE), Set?(conf, Http(STREAM)), Set?(conf, Http(DURATION)));
    FieldsOfRenames();
    forall k, l | 0 <= k < l < 5 ensures Apart(Effective(conf)[k], Effective(conf)[l]) {
      DifferentFieldsApart(ps[k], ps[l]);
    }
  }

  // ---- the converter ---------------------------------------------------------

  lemma FiveSteps(conf: Object, ms: seq<Move>)
    requires |ms| == 5 && forall i :: 0 <= i < 5 ==> ms[i].to != []
    ensures Run(conf, ms) ==
            Step(conf, Step(conf, Step(conf, Step(conf, Step(conf, State(map[], {}), ms[0]), ms[1]), ms[2]), ms[3]),
                ms[4])
  {
    hide Step;
    assert ms[..4][..3] == ms[..3] && ms[..3][..2] == ms[..2] && ms[..2][..1] == ms[..1] && ms[..1][..0] == [];
    assert Run(conf, ms[..1]) == Step(conf, Run(conf, []), ms[0]);
    assert Run(conf, ms[..2]) == Step(conf, Run(conf, ms[..1]), ms[1]);
    assert Run(conf, ms[..3]) == Step(conf, Run(conf, ms[..2]), ms[2]);
  }

  function FirstFive(conf: Object): State {
    Step(conf, Step(conf, Step(conf, Step(conf, Step(conf, State(map[], {}), CONNECT_MOVE), TCP_IDLE), Http(REQUEST)),
        Http(STREAM)),
         Http(DURATION))
  }

  function StepIf(wanted: bool, conf: Object, st: State, m: Move): State
    requires m.to != []
  {
    if wanted then Step(conf, st, m) else st
  }

  /** The converter's own order of steps decides the same fields. */
  lemma FinalByStages(conf: Object)
    ensures Final(conf).dst ==
            StepIf(!Set?(conf, Http(DURATION)), conf,
                   StepIf(!Set?(conf, Http(STREAM)), conf,
                          StepIf(!Moves(conf, TCP_IDLE), conf, FirstFive(conf), HTTP_IDLE), Grpc(STREAM)),
                              Grpc(DURATION)).dst
  {
    hide Step, Get, Run;
    NonEmptyTargets(conf);
    FiveSteps(conf, Effective(conf));
    StepsAreIdle(conf);
  }

  lemma StepUses(conf: Object)
    ensures forall st: State, m: Move :: m.to != [] ==> Step(conf, st, m).used == st.used + Used(conf, m)
  {
  }

  lemma StagesReachFinal(conf: Object, s6: State, s7: State, s8: State)
    requires var first := FirstFive(conf);
      && s6.dst == StepIf(!Moves(conf, TCP_IDLE), conf, first, HTTP_IDLE).dst
      && s6.used == Step(conf, first, HTTP_IDLE).used
    requires s7.dst == StepIf(!Set?(conf, Http(STREAM)), conf, s6, Grpc(STREAM)).dst
    requires s7.used == Step(conf, s6, Grpc(STREAM)).used
    requires s8.dst == StepIf(!Set?(conf, Http(DURATION)), conf, s7, Grpc(DURATION)).dst
    requires s8.used == Step(conf, s7, Grpc(DURATION)).used
    ensures s8 == Final(conf)
  {
    hide Step, Get, Used, Effective, FirstFive, Moves, Set?, Run;
    StepUses(conf);
    FinalByStages(conf);
    FirstFiveUse(conf);
    var t6 := StepIf(!Moves(conf, TCP_IDLE), conf, FirstFive(conf), HTTP_IDLE);
    SameDst(!Set?(conf, Http(STREAM)), conf, s6, t6, Grpc(STREAM));
    var t7 := StepIf(!Set?(conf, Http(STREAM)), conf, t6, Grpc(STREAM));
    SameDst(!Set?(conf, Http(DURATION)), conf, s7, t7, Grpc(DURATION));
  }

  /** What a step writes does not depend on what is consumed. */
  lemma SameDst(wanted: bool, conf: Object, s: State, t: State, m: Move)
    requires m.to != [] && s.dst == t.dst
    ensures StepIf(wanted, conf, s, m).dst == StepIf(wanted, conf, t, m).dst
  {
  }

  lemma FirstFiveUse(conf: Object)
    ensures FirstFive(conf).used + Used(conf, HTTP_IDLE) + Used(conf, Grpc(STREAM)) + Used(conf, Grpc(DURATION)) ==
              AllUsed(conf)
  {
    hide Step, Used;
    StepUses(conf);
    assert {} + Used(conf, CONNECT_MOVE) == Used(conf, CONNECT_MOVE);
  }

  /** A move without a source changes nothing. */
  lemma StepsAreIdle(conf: Object)
    ensures forall st: State, m: Move :: m.to != [] && !Moves(conf, m) ==> Step(conf, st, m) == st
    ensures forall m: Move :: !Set?(conf, m) ==> !Moves(conf, m)
  {
  }

  /** The conflict that is reported: both idle timeouts are set and differ. */
  predicate IdleConflict(conf: Object) {
    Moves(conf, TCP_IDLE) && Moves(conf, HTTP_IDLE) && Get(Obj(conf), TCP_IDLE.from) != Get(Obj(conf), HTTP_IDLE.from)
  }

  /** Comparing the two idle timeouts panics: two lists or two maps have no equality. */
  predicate IdlePanics(conf: Object) {
    Moves(conf, TCP_IDLE) && Moves(conf, HTTP_IDLE)
    && var tcp, http := Get(Obj(conf), TCP_IDLE.from).value, Get(Obj(conf), HTTP_IDLE.from).value;
       (tcp.Arr? && http.Arr?) || (tcp.Obj? && http.Obj?)
  }

  method ConvertTimeoutConf(conf: Object)
    returns (panics: bool, result: Option<Object>, idleConflict: bool, unmapped: seq<string>)
    ensures panics == IdlePanics(conf)
    ensures !panics ==> result == (var dst := Final(conf).dst; if dst == map[] then None else Some(dst))
    ensures !panics ==> idleConflict == IdleConflict(conf)
    ensures !panics ==> Reports(unmapped, Final(conf).used, conf)
  {
    hide HTTP, GRPC, TCP, IDLE, STREAM, DURATION, REQUEST, CONNECT, CONNECTION, PlainKey, Step, Get, Effective, Dotted;
    hide Final, RENAMES, Reports, Moves, Split, Set?, IdlePanics;
    PlainNames();
    var m := new Mapper(conf);
    var _ := m.Apply(CONNECT_MOVE);
    var _ := m.Apply(TCP_IDLE);
    var _ := m.Apply(Http(REQUEST));
    var _ := m.Apply(Http(STREAM));
    var _ := m.Apply(Http(DURATION));
    if Moves(conf, TCP_IDLE) { TcpIdleInPlace(conf); }
    panics, idleConflict := MoveHttpIdle(m);
    if panics { return true, None, false, []; }
    ghost var s6 := m.Current();
    MoveGrpc(m, STREAM);
    ghost var s7 := m.Current();
    MoveGrpc(m, DURATION);
    StagesReachFinal(conf, s6, s7, m.Current());
    unmapped := m.Unmapped();
    result := if m.dst == map[] then None else Some(m.dst);
  }

  /** The tcp value, once moved, is still there after the http moves. */
  lemma TcpIdleInPlace(conf: Object)
    requires Moves(conf, TCP_IDLE)
    ensures IDLE in FirstFive(conf).dst && Some(FirstFive(conf).dst[IDLE]) == Get(Obj(conf), TCP_IDLE.from)
  {
    hide HTTP, GRPC, TCP, IDLE, STREAM, DURATION, REQUEST, CONNECT, CONNECTION, Get;
    DistinctNames();
  }

  /** Both idle timeouts map to one field: the tcp value stays, and a different http value is reported. */
  method MoveHttpIdle(m: Mapper) returns (panics: bool, conflict: bool)
    requires Moves(m.src, TCP_IDLE) ==> IDLE in m.dst && Some(m.dst[IDLE]) == Get(Obj(m.src), TCP_IDLE.from)
    modifies m
    ensures panics == IdlePanics(m.src)
    ensures !panics ==> m.dst == StepIf(!Moves(m.src, TCP_IDLE), m.src, old(m.Current()), HTTP_IDLE).dst
    ensures m.used == Step(m.src, old(m.Current()), HTTP_IDLE).used
    ensures !panics ==> conflict == IdleConflict(m.src)
  {
    hide HTTP, TCP, IDLE, PlainKey;
    PlainNames();
    SplitDotted(HTTP_IDLE.from);
    SplitDotted(TCP_IDLE.from);
    SplitDotted(HTTP_IDLE.to);
    panics, conflict := false, false;
    var httpIdle := m.Lookup(Dotted(HTTP_IDLE.from));
    if httpIdle.Some? && !httpIdle.value.Null? {
      m.MarkUsed(Dotted(HTTP_IDLE.from));
      var tcpIdle := m.Lookup(Dotted(TCP_IDLE.from));
      var both := tcpIdle.Some? && !tcpIdle.value.Null?;
      if both && ((tcpIdle.value.Arr? && httpIdle.value.Arr?) || (tcpIdle.value.Obj? && httpIdle.value.Obj?)) {
        panics := true;
      } else if both && tcpIdle != httpIdle {
        conflict := true;
      } else {
        m.Write(IDLE, httpIdle.value);
      }
    }
  }

  /** The gRPC value is consumed, and written only when the http field is absent. */
  method MoveGrpc(m: Mapper, key: string)
    requires PlainKey(key)
    modifies m
    ensures m.dst == StepIf(!Set?(m.src, Http(key)), m.src, old(m.Current()), Grpc(key)).dst
    ensures m.used == Step(m.src, old(m.Current()), Grpc(key)).used
  {
    hide HTTP, GRPC, PlainKey;
    PlainNames();
    PlainDotFree(Grpc(key).from);
    PlainDotFree(Http(key).from);
    SplitDotted(Grpc(key).from);
    SplitDotted(Http(key).from);
    var v := m.Lookup(Dotted(Grpc(key).from));
    if v.Some? && !v.value.Null? {
      m.MarkUsed(Dotted(Grpc(key).from));
      var existing := m.Lookup(Dotted(Http(key).from));
      if existing.None? { m.Write(Dotted(Http(key).to), v.value); }
    }
  }

  // ---- what is lost --------------------------------------------------------------

  lemma SourcesApart(i: nat, j: nat)
    requires i < j < |RENAMES|
    ensures Incomparable(RENAMES[i].from, RENAMES[j].from)
  {
    hide HTTP, GRPC, TCP, IDLE, STREAM, DURATION, REQUEST, CONNECT, CONNECTION, Incomparable;
    DistinctNames();
    PartWays(RENAMES[i].from, RENAMES[j].from);
  }

  lemma OneSource(i: nat, j: nat, p: Path)
    requires i < |RENAMES| && j < |RENAMES| && RENAMES[i].from <= p && RENAMES[j].from <= p
    ensures i == j
  {
    hide RENAMES;
    if i < j { SourcesApart(i, j); }
    if j < i { SourcesApart(j, i); }
  }

  lemma ChosenWhen(tcp: bool, stream: bool, duration: bool, i: nat)
    ensures i in Positions(tcp, stream, duration) <==>
              i == 0 || i == 2 || i == (if tcp then 1 else 5) || i == (if stream then 3 else 6) ||
                  i == (if duration then 4 else 7)
  {
  }

  /** The leaf is in the result, where the legacy field is renamed to. */
  ghost predicate Readable(conf: Object, p: Path) {
    exists i :: 0 <= i < |RENAMES| && ReadableBy(conf, RENAMES[i], p)
  }

  ghost predicate ReadableBy(conf: Object, m: Move, p: Path) {
    m.from <= p && Get(Obj(Final(conf).dst), m.to + p[|m.from|..]) == Get(Obj(conf), p)
  }

  /** A warning names the leaf. */
  ghost predicate Reported(conf: Object, p: Path) {
    LeftOver(Final(conf).used, conf, p) || (IdleConflict(conf) && HTTP_IDLE.from <= p)
  }

  /** A gRPC timeout below a present http one that says something else. */
  ghost predicate Shadowed(conf: Object, key: string, p: Path) {
    && Grpc(key).from <= p && Set?(conf, Http(key))
    && Get(Obj(conf), Http(key).from + p[2..]) != Get(Obj(conf), p)
  }

  lemma UsedByRenames(conf: Object, name: string)
    ensures name in AllUsed(conf) <==> exists i :: 0 <= i < 8 && name in Used(conf, RENAMES[i])
  {
    hide Used, RENAMES;
  }

  /** A leaf is left over exactly when no moved source is at or above the place its name spells. */
  lemma LeftOverByRenames(conf: Object, p: Path)
    requires LeafAt(Obj(conf), p)
    ensures LeftOver(Final(conf).used, conf, p) <==>
              !exists i :: 0 <= i < |RENAMES| && Moves(conf, RENAMES[i]) && RENAMES[i].from <= Split(LeafName(p))
  {
    hide RENAMES, AllUsed, Effective, ConsumedName, Moves, Get;
    var used, place := Final(conf).used, Split(LeafName(p));
    FieldsOfRenames();
    ConsumedAgrees(used, LeafName(p));
    DottedSplit(LeafName(p));
    if Consumed(used, place) {
      var n :| 0 < n <= |place| && Dotted(place[..n]) in AllUsed(conf);
      UsedByRenames(conf, Dotted(place[..n]));
      var i :| 0 <= i < 8 && Dotted(place[..n]) in Used(conf, RENAMES[i]);
      assert forall k :: k in place[..n] ==> k in place;
      PlainDotFree(RENAMES[i].from);
      DottedInjective(place[..n], RENAMES[i].from);
      EmptyNameHasNoSource(RENAMES[i], LeafName(p));
    }
    if i :| 0 <= i < |RENAMES| && Moves(conf, RENAMES[i]) && RENAMES[i].from <= place {
      UsedByRenames(conf, Dotted(RENAMES[i].from));
      assert place[..|RENAMES[i].from|] == RENAMES[i].from;
      EmptyNameHasNoSource(RENAMES[i], LeafName(p));
    }
  }

  /** A source above a leaf is present and not null. */
  lemma MovesAbove(conf: Object, m: Move, p: Path)
    requires m.from <= p && LeafAt(Obj(conf), p)
    ensures Moves(conf, m) && Set?(conf, m)
  {
    var rest := p[|m.from|..];
    assert p == m.from + rest;
    GetAppend(Obj(conf), m.from, rest);
    if rest == [] { assert m.from == p; }
  }

  /** The result holds a leaf at a decided field exactly when the deciding source did. */
  lemma DecidedBy(conf: Object, i: nat, rest: Path, v: Value)
    requires LeafValue(v)
    requires i in Positions(Moves(conf, TCP_IDLE), Set?(conf, Http(STREAM)), Set?(conf, Http(DURATION)))
    ensures i < |RENAMES|
    ensures Get(Obj(Final(conf).dst), RENAMES[i].to + rest) == Some(v) <==>
              Get(Obj(conf), RENAMES[i].from + rest) == Some(v)
  {
    hide RENAMES, Positions, WellFormed;
    var ps := Positions(Moves(conf, TCP_IDLE), Set?(conf, Http(STREAM)), Set?(conf, Http(DURATION)));
    var k :| 0 <= k < 5 && ps[k] == i;
    FieldsOfRenames();
    NotPercentages();
    EffectiveWellFormed(conf);
    ReadBack(conf, Effective(conf), k, rest, v);
  }

  lemma NotPercentages()
    ensures forall i :: 0 <= i < |RENAMES| ==> !RENAMES[i].percentage
  {
  }

  function GrpcKey(i: int): string {
    if i == 6 then STREAM else DURATION
  }

  /** The conflict is reported exactly when an http idle timeout is set and the result has another one. */
  lemma ConflictMeans(conf: Object)
    ensures IdleConflict(conf) <==>
              && Get(Obj(conf), [HTTP, IDLE]) !in {None, Some(Null)}
              && Get(Obj(Final(conf).dst), [IDLE]) != Get(Obj(conf), [HTTP, IDLE])
  {
    hide HTTP, GRPC, TCP, IDLE, STREAM, DURATION, REQUEST, CONNECT, CONNECTION, Get, WellFormed, Run;
    EffectiveWellFormed(conf);
    var tcp, stream, duration := Moves(conf, TCP_IDLE), Set?(conf, Http(STREAM)), Set?(conf, Http(DURATION));
    var i := if tcp then 1 else 5;
    ChosenWhen(tcp, stream, duration, i);
    var ps := Positions(tcp, stream, duration);
    var k :| 0 <= k < 5 && ps[k] == i;
    assert Effective(conf)[..5] == Effective(conf) && Effective(conf)[k] == RENAMES[i];
    if Moves(conf, RENAMES[i]) { MovedWhole(conf, Effective(conf), 5, k); }
  }

  /** A leaf below one of the renames is silently lost only below a gRPC timeout, when it is shadowed. */
  lemma LostBelow(conf: Object, i: nat, p: Path)
    requires LeafAt(Obj(conf), p) && i < |RENAMES| && RENAMES[i].from <= p
    ensures !ReadableBy(conf, RENAMES[i], p) && !(IdleConflict(conf) && i == 5) <==>
              (i == 6 || i == 7) && Shadowed(conf, GrpcKey(i), p)
  {
    hide Positions, Final, HTTP, GRPC, TCP, IDLE, STREAM, DURATION, REQUEST, CONNECT, CONNECTION, Get;
    var m := RENAMES[i];
    var rest, v := p[|m.from|..], Get(Obj(conf), p).value;
    assert p == m.from + rest;
    MovesAbove(conf, m, p);
    var tcp, stream, duration := Moves(conf, TCP_IDLE), Set?(conf, Http(STREAM)), Set?(conf, Http(DURATION));
    ChosenWhen(tcp, stream, duration, i);
    if i in Positions(tcp, stream, duration) {
      DecidedBy(conf, i, rest, v);
    } else {
      var other := if i == 5 then 1 else if i == 6 then 3 else 4;
      ChosenWhen(tcp, stream, duration, other);
      DecidedBy(conf, other, rest, v);
      if i == 5 && !IdleConflict(conf) {
        GetAppend(Obj(conf), TCP_IDLE.from, rest);
        GetAppend(Obj(conf), HTTP_IDLE.from, rest);
      }
    }
  }

  /** Unless the converter panics, every leaf of a legacy Timeout conf is in the result or reported, except two
      families. A leaf below a gRPC timeout is lost without a word exactly when the http timeout of the same name is
      present (null counts) and does not hold the same value; a leaf below no timeout, exactly when a dot in one of its
      keys hides it. */
  lemma TimeoutLosesExactly(conf: Object, p: Path)
    requires LeafAt(Obj(conf), p) && !IdlePanics(conf)
    ensures !Readable(conf, p) && !Reported(conf, p) <==>
              Shadowed(conf, STREAM, p) || Shadowed(conf, DURATION, p) || Hidden(conf, RENAMES, p)
    ensures Plain(p) ==> !Hidden(conf, RENAMES, p)
  {
    hide RENAMES, Final, IdleConflict, Get, LeftOver, LeafName, Moves;
    GrpcRows();
    FieldsOfRenames();
    LeftOverByRenames(conf, p);
    if Plain(p) {
      NotAtRoot(conf, p);
      NameSplits(p);
    }
    if i :| 0 <= i < |RENAMES| && RENAMES[i].from <= p {
      LostBelow(conf, i, p);
      MovesAbove(conf, RENAMES[i], p);
      SourceSpelled(RENAMES[i].from, p);
      forall j | 0 <= j < |RENAMES| && RENAMES[j].from <= p ensures j == i { OneSource(i, j, p); }
    }
  }

  lemma GrpcRows()
    ensures |RENAMES| == 8 && RENAMES[5] == HTTP_IDLE && RENAMES[6] == Grpc(STREAM) && RENAMES[7] == Grpc(DURATION)
  {
  }

  function NullHttp(): Object {
    map[HTTP := Obj(map[STREAM := Null]), GRPC := Obj(map[STREAM := Int(1)])]
  }

  /** A null http timeout is enough to lose the gRPC one. */
  lemma NullHttpShadows()
    ensures var p := [GRPC, STREAM];
      LeafAt(Obj(NullHttp()), p) && !Readable(NullHttp(), p) && !Reported(NullHttp(), p)
  {
    hide HTTP, GRPC, STREAM, Readable, Reported, Hidden;
    DistinctNames();
    PlainNames();
    var p := [GRPC, STREAM];
    assert p[1..] == [STREAM] && [STREAM][1..] == [] && Http(STREAM).from[1..] == [STREAM];
    assert Http(STREAM).from + p[2..] == Http(STREAM).from;
    assert Get(Obj(NullHttp()), p) == Get(Obj(map[STREAM := Int(1)]), [STREAM]) == Some(Int(1));
    assert Get(Obj(NullHttp()), Http(STREAM).from) == Get(Obj(map[STREAM := Null]), [STREAM]) == Some(Null);
    TimeoutLosesExactly(NullHttp(), p);
  }
}
