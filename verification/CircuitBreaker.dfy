/** convertCircuitBreakerConf (legacyconf.go): the flat legacy conf splits into connectionLimits and
    outlierDetection, and every detector is renamed. */
module CircuitBreaker {
  import opened Text
  import opened Json
  import opened Paths
  import opened ConfMapper

  const OD := "outlierDetection"
  const DET := "detectors"
  const LIMITS := "connectionLimits"

  function Outlier(key: string): Move {
    Move([key], [OD, key], false)
  }

  function Detector(was: string, wasKey: string, now: string, nowKey: string): Move {
    Move([DET, was, wasKey], [OD, DET, now, nowKey], wasKey == "factor")
  }

  function Threshold(key: string): Move {
    Move(["thresholds", key], [LIMITS, key], false)
  }

  const MOVES: seq<Move> := [
    Outlier("interval"),
    Outlier("baseEjectionTime"),
    Outlier("maxEjectionPercent"),
    Outlier("splitExternalAndLocalErrors"),
    Detector("totalErrors", "consecutive", "totalFailures", "consecutive"),
    Detector("gatewayErrors", "consecutive", "gatewayFailures", "consecutive"),
    Detector("localErrors", "consecutive", "localOriginFailures", "consecutive"),
    Detector("standardDeviation", "requestVolume", "successRate", "requestVolume"),
    Detector("standardDeviation", "minimumHosts", "successRate", "minimumHosts"),
    Detector("standardDeviation", "factor", "successRate", "standardDeviationFactor"),
    Detector("failure", "requestVolume", "failurePercentage", "requestVolume"),
    Detector("failure", "minimumHosts", "failurePercentage", "minimumHosts"),
    Detector("failure", "threshold", "failurePercentage", "threshold"),
    Threshold("maxConnections"),
    Threshold("maxPendingRequests"),
    Threshold("maxRetries"),
    Threshold("maxRequests")
  ]

  // ---- the table is well formed ----------------------------------------------

  /** Positions of the table, told apart by their last two segments. */
  function SourceDetector(detector: string, key: string): int {
    if detector == "totalErrors" then 4 else if detector == "gatewayErrors" then 5
    else if detector == "localErrors" then 6
    else if detector == "standardDeviation" then
      if key == "requestVolume" then 7 else if key == "minimumHosts" then 8 else 9
    else if key == "requestVolume" then 10 else if key == "minimumHosts" then 11 else 12
  }

  function DestinationDetector(detector: string, key: string): int {
    if detector == "totalFailures" then 4 else if detector == "gatewayFailures" then 5
    else if detector == "localOriginFailures" then 6
    else if detector == "successRate" then
      if key == "requestVolume" then 7 else if key == "minimumHosts" then 8 else 9
    else if key == "requestVolume" then 10 else if key == "minimumHosts" then 11 else 12
  }

  function OutlierRank(key: string): int {
    if key == "interval" then 0 else if key == "baseEjectionTime" then 1
    else if key == "maxEjectionPercent" then 2 else if key == "splitExternalAndLocalErrors" then 3 else -1
  }

  function LimitRank(key: string): int {
    if key == "maxConnections" then 13 else if key == "maxPendingRequests" then 14
    else if key == "maxRetries" then 15 else if key == "maxRequests" then 16 else -1
  }

  function SourceRank(p: Path): int {
    if |p| == 1 then OutlierRank(p[0]) else if |p| == 2 then LimitRank(p[1])
    else if |p| == 3 then SourceDetector(p[1], p[2]) else -1
  }

  function DestinationRank(p: Path): int {
    if |p| == 2 then if p[0] == OD then OutlierRank(p[1]) else LimitRank(p[1])
    else if |p| == 4 then DestinationDetector(p[2], p[3]) else -1
  }

  predicate SourceShape(p: Path) {
    || (|p| == 1 && OutlierRank(p[0]) >= 0)
    || (|p| == 2 && p[0] == "thresholds")
    || (|p| == 3 && p[0] == DET)
  }

  predicate DestinationShape(p: Path) {
    || (|p| == 2 && (p[0] == LIMITS || (p[0] == OD && OutlierRank(p[1]) >= 0)))
    || (|p| == 4 && p[0] == OD && p[1] == DET)
  }

  lemma OutlierRows()
    ensures OutlierRank("interval") == 0 && OutlierRank("baseEjectionTime") == 1
    ensures OutlierRank("maxEjectionPercent") == 2 && OutlierRank("splitExternalAndLocalErrors") == 3
    ensures OutlierRank(DET) == -1 && OutlierRank("thresholds") == -1
  {
  }

  lemma LimitRows()
    ensures LimitRank("maxConnections") == 13 && LimitRank("maxPendingRequests") == 14
    ensures LimitRank("maxRetries") == 15 && LimitRank("maxRequests") == 16
    ensures LIMITS != OD && DET != "thresholds"
  {
  }

  lemma SourceDetectorRows()
    ensures SourceDetector("totalErrors", "consecutive") == 4
    ensures SourceDetector("gatewayErrors", "consecutive") == 5
    ensures SourceDetector("localErrors", "consecutive") == 6
    ensures SourceDetector("standardDeviation", "requestVolume") == 7
    ensures SourceDetector("standardDeviation", "minimumHosts") == 8
    ensures SourceDetector("standardDeviation", "factor") == 9
    ensures SourceDetector("failure", "requestVolume") == 10
    ensures SourceDetector("failure", "minimumHosts") == 11
    ensures SourceDetector("failure", "threshold") == 12
  {
  }

  lemma DestinationDetectorRows()
    ensures DestinationDetector("totalFailures", "consecutive") == 4
    ensures DestinationDetector("gatewayFailures", "consecutive") == 5
    ensures DestinationDetector("localOriginFailures", "consecutive") == 6
    ensures DestinationDetector("successRate", "requestVolume") == 7
    ensures DestinationDetector("successRate", "minimumHosts") == 8
    ensures DestinationDetector("successRate", "standardDeviationFactor") == 9
    ensures DestinationDetector("failurePercentage", "requestVolume") == 10
    ensures DestinationDetector("failurePercentage", "minimumHosts") == 11
    ensures DestinationDetector("failurePercentage", "threshold") == 12
  {
  }

  lemma SourceRow(i: nat)
    requires i < |MOVES|
    ensures SourceRank(MOVES[i].from) == i && SourceShape(MOVES[i].from)
  {
    hide OutlierRank, LimitRank, SourceDetector;
    OutlierRows();
    LimitRows();
    SourceDetectorRows();
  }

  lemma DestinationRow(i: nat)
    requires i < |MOVES|
    ensures DestinationRank(MOVES[i].to) == i && DestinationShape(MOVES[i].to)
  {
    hide OutlierRank, LimitRank, DestinationDetector;
    OutlierRows();
    LimitRows();
    DestinationDetectorRows();
  }

  lemma PlainGroups()
    ensures PlainKey("interval") && PlainKey("baseEjectionTime") && PlainKey("maxEjectionPercent")
    ensures PlainKey("splitExternalAndLocalErrors") && PlainKey(OD) && PlainKey(DET)
    ensures PlainKey(LIMITS) && PlainKey("thresholds")
  {
  }

  lemma PlainFields()
    ensures PlainKey("maxConnections") && PlainKey("maxPendingRequests") && PlainKey("maxRetries")
    ensures PlainKey("maxRequests") && PlainKey("consecutive") && PlainKey("requestVolume")
    ensures PlainKey("minimumHosts") && PlainKey("threshold")
  {
  }

  lemma PlainDetectors()
    ensures PlainKey("totalErrors") && PlainKey("gatewayErrors") && PlainKey("localErrors")
    ensures PlainKey("standardDeviation") && PlainKey("factor") && PlainKey("failure")
    ensures PlainKey("totalFailures") && PlainKey("gatewayFailures") && PlainKey("localOriginFailures")
    ensures PlainKey("successRate") && PlainKey("standardDeviationFactor") && PlainKey("failurePercentage")
  {
  }

  lemma PlainRows()
    ensures forall i :: 0 <= i < |MOVES| ==> Plain(MOVES[i].from) && Plain(MOVES[i].to)
  {
    hide PlainKey;
    PlainGroups();
    PlainFields();
    PlainDetectors();
  }

  lemma SourcesIncomparable(p: Path, q: Path)
    requires SourceShape(p) && SourceShape(q) && p != q
    ensures Incomparable(p, q)
  {
    hide OutlierRank;
    OutlierRows();
    LimitRows();
    assert p[..|p|] == p && q[..|q|] == q;
  }

  lemma DestinationsIncomparable(p: Path, q: Path)
    requires DestinationShape(p) && DestinationShape(q) && p != q
    ensures Incomparable(p, q)
  {
    hide OutlierRank;
    OutlierRows();
    LimitRows();
    assert p[..|p|] == p && q[..|q|] == q;
  }

  lemma MovesWellFormed()
    ensures WellFormed(MOVES)
  {
    hide MOVES, SourceRank, DestinationRank, Plain;
    PlainRows();
    forall i | 0 <= i < |MOVES| ensures MOVES[i].from != [] && MOVES[i].to != [] {
      SourceRow(i);
      DestinationRow(i);
    }
    forall i, j | 0 <= i < j < |MOVES|
      ensures Incomparable(MOVES[i].from, MOVES[j].from) && Incomparable(MOVES[i].to, MOVES[j].to)
    {
      SourceRow(i);
      SourceRow(j);
      SourcesIncomparable(MOVES[i].from, MOVES[j].from);
      DestinationRow(i);
      DestinationRow(j);
      DestinationsIncomparable(MOVES[i].to, MOVES[j].to);
    }
  }

  // ---- the converter ---------------------------------------------------------

  /** convertCircuitBreakerConf: the moves in order, the result (None when nothing was mapped), and the
      names of the fields that are reported as dropped. */
  method ConvertCircuitBreakerConf(conf: Object) returns (result: Option<Object>, unmapped: seq<string>)
    ensures result == (var dst := Run(conf, MOVES).dst; if dst == map[] then None else Some(dst))
    ensures Reports(unmapped, Run(conf, MOVES).used, conf)
  {
    hide MOVES;
    MovesWellFormed();
    var m := new Mapper(conf);
    for i := 0 to |MOVES|
      invariant m.src == conf && fresh(m)
      invariant m.Current() == Run(conf, MOVES[..i])
    {
      var _ := m.Apply(MOVES[i]);
      assert MOVES[..i + 1][..i] == MOVES[..i];
    }
    assert MOVES[..|MOVES|] == MOVES;
    unmapped := m.Unmapped();
    result := if m.dst == map[] then None else Some(m.dst);
  }

  /** Every non-null leaf of any legacy conf is either readable in the result at its renamed path (a percentage as the
      same number) or left over, and so named in the warning; never both, and neither exactly when a dot in one of its
      keys hides it. No leaf with plain keys is hidden. */
  lemma CircuitBreakerConservation(conf: Object, p: Path)
    requires LeafAt(Obj(conf), p)
    ensures var st := Run(conf, MOVES);
      var carried := exists i :: 0 <= i < |MOVES| && Carried(conf, st.dst, MOVES[i], p);
      && !(carried && LeftOver(st.used, conf, p))
      && (!carried && !LeftOver(st.used, conf, p) <==> Hidden(conf, MOVES, p))
      && (Plain(p) ==> !Hidden(conf, MOVES, p))
  {
    hide MOVES;
    MovesWellFormed();
    Conservation(conf, MOVES, p);
  }

  /** Only the factor of the standard deviation is a percentage; every other value goes across as it is. */
  lemma OnlyFactorIsPercentage(i: nat)
    requires i < |MOVES|
    ensures MOVES[i].percentage <==> MOVES[i].from == [DET, "standardDeviation", "factor"]
  {
    assert "consecutive"[0] == 'c' && "requestVolume"[0] == 'r' && "minimumHosts"[0] == 'm' && "threshold"[0] == 't';
    assert "factor"[0] == 'f';
  }

  /** And nothing else is in the result. */
  lemma CircuitBreakerInventsNothing(conf: Object, q: Path)
    requires LeafAt(Obj(Run(conf, MOVES).dst), q)
    ensures exists i, p :: 0 <= i < |MOVES| && CameFrom(conf, Run(conf, MOVES).dst, MOVES[i], p, q)
  {
    hide MOVES;
    MovesWellFormed();
    NothingInvented(conf, MOVES, q);
  }
}
