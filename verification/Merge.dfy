/** The merge engine: validation, exceptions, thresholds, overlap clusters and one winner per cluster. */
module Merge {
  import opened Results
  import opened Sequences
  import opened Intervals
  import opened Detections

  datatype MergeConfig = MergeConfig(tier1Threshold: real, tier2Threshold: real, tier3Threshold: real)

  datatype ExceptionEntry = ExceptionEntry(
    ruleId: Option<string>, entityType: Option<string>, textMatch: Option<string>)

  datatype MergeResult = MergeResult(
    accepted: seq<Detection>,
    belowThreshold: seq<Detection>,
    exceptionSuppressed: seq<Detection>,
    spanInvalid: seq<Detection>)

  function Threshold(cfg: MergeConfig, tier: int): real {
    if tier == 1 then cfg.tier1Threshold
    else if tier == 2 then cfg.tier2Threshold
    else cfg.tier3Threshold
  }

  /** Lower is stronger. */
  function DetectorRank(detector: string): int {
    if detector == "structural" || detector == "structural.dz" then 0
    else if detector == "ner" then 1
    else if detector == "contextual" then 2
    else 99
  }

  predicate Truthy(s: Option<string>) {
    s.Some? && s.value != ""
  }

  predicate MatchesAnything(exc: ExceptionEntry) {
    Truthy(exc.ruleId) || Truthy(exc.entityType) || Truthy(exc.textMatch)
  }

  predicate ExceptionApplies(exc: ExceptionEntry, d: Detection) {
    if !MatchesAnything(exc) then false
    else if exc.ruleId.Some? && exc.ruleId != d.ruleId then false
    else if exc.entityType.Some? && exc.entityType.value != d.entityType then false
    else !(exc.textMatch.Some? && exc.textMatch.value != d.text)
  }

  predicate Suppressed(exceptions: seq<ExceptionEntry>, d: Detection) {
    exists exc | exc in exceptions :: ExceptionApplies(exc, d)
  }

  predicate MeetsThreshold(cfg: MergeConfig, d: Detection) {
    d.confidence >= Threshold(cfg, d.tier)
  }

  /** The sort key `(start, -end)`. */
  predicate StartLe(a: Detection, b: Detection) {
    SpanLe(SpanOf(a), SpanOf(b))
  }

  /** The sort key `(-(end - start), tier, detector precedence)`. */
  predicate RankLe(a: Detection, b: Detection) {
    var la, lb := a.end - a.start, b.end - b.start;
    || la > lb
    || (la == lb && a.tier < b.tier)
    || (la == lb && a.tier == b.tier && DetectorRank(a.detector) <= DetectorRank(b.detector))
  }

  function Length(d: Detection): int { d.end - d.start }

  predicate Corroborated(cluster: seq<Detection>, w: Detection) {
    exists other | other in cluster :: other.start == w.start && other.end == w.end && other.detector != w.detector
  }

  /** The winner's own confidence, raised by 0.05 but not past 0.99; never lowered. */
  function Boost(cluster: seq<Detection>, w: Detection): Detection {
    if Corroborated(cluster, w) then
      var boosted := if w.confidence + 0.05 < 0.99 then w.confidence + 0.05 else 0.99;
      if boosted > w.confidence then w.(confidence := boosted) else w
    else w
  }

  function PickClusterWinner(cluster: seq<Detection>): Detection
    requires cluster != []
  {
    if |cluster| == 1 then cluster[0]
    else
      SortPermutes(cluster, RankLe);
      Boost(cluster, StableSort(cluster, RankLe)[0])
  }

  function Winners(clusters: seq<seq<Detection>>): seq<Detection>
    requires NonEmptyGroups(clusters)
  {
    if clusters == [] then [] else [PickClusterWinner(clusters[0])] + Winners(clusters[1..])
  }

  function Clusters(ds: seq<Detection>): (clusters: seq<seq<Detection>>)
    ensures NonEmptyGroups(clusters)
  {
    SweepNonEmpty(StableSort(ds, StartLe), SpanOf);
    Sweep(StableSort(ds, StartLe), SpanOf)
  }

  // ----- The engine, step by step -----

  lemma {:induction false} WinnersAppend(clusters: seq<seq<Detection>>, g: seq<Detection>)
    requires g != [] && NonEmptyGroups(clusters)
    ensures Winners(clusters + [g]) == Winners(clusters) + [PickClusterWinner(g)]
  {
    if clusters == [] {
    } else {
      WinnersAppend(clusters[1..], g);
      assert (clusters + [g])[1..] == clusters[1..] + [g];
    }
  }

  method SweepClusters(detections: seq<Detection>) returns (clusters: seq<seq<Detection>>)
    requires detections != []
    ensures clusters == Clusters(detections)
  {
    var sortedDets := StableSort(detections, StartLe);
    SortPermutes(detections, StartLe);
    ghost var all := Sweep(sortedDets, SpanOf);
    clusters := [];
    var current := [sortedDets[0]];
    var currentEnd := sortedDets[0].end;
    for i := 1 to |sortedDets|
      invariant clusters + SweepFrom(current, currentEnd, sortedDets[i..], SpanOf) == all
    {
      var d := sortedDets[i];
      SweepStep(clusters, current, currentEnd, sortedDets, i, SpanOf);
      if d.start < currentEnd {
        current := current + [d];
        currentEnd := Max(currentEnd, d.end);
      } else {
        clusters := clusters + [current];
        current := [d];
        currentEnd := d.end;
      }
    }
    clusters := clusters + [current];
  }

  method ResolveOverlaps(detections: seq<Detection>) returns (out: seq<Detection>)
    ensures out == Winners(Clusters(detections))
  {
    if |detections| == 0 {
      return [];
    }
    var clusters := SweepClusters(detections);
    out := [];
    for i := 0 to |clusters|
      invariant out == Winners(clusters[..i])
    {
      WinnersAppend(clusters[..i], clusters[i]);
      assert clusters[..i + 1] == clusters[..i] + [clusters[i]];
      out := out + [PickClusterWinner(clusters[i])];
    }
    assert clusters[..|clusters|] == clusters;
  }

  function Matches(original: string): Detection -> bool { d => SpanMatches(original, d) }
  function Excepted(exceptions: seq<ExceptionEntry>): Detection -> bool { d => Suppressed(exceptions, d) }
  function Meets(cfg: MergeConfig): Detection -> bool { d => MeetsThreshold(cfg, d) }

  function Validated(original: string, ds: seq<Detection>): seq<Detection> {
    Filter(ds, Matches(original))
  }

  function Kept(original: string, ds: seq<Detection>, exceptions: seq<ExceptionEntry>): seq<Detection> {
    Filter(Validated(original, ds), Not(Excepted(exceptions)))
  }

  /** The detections that reach overlap resolution. */
  function Passing(
      cfg: MergeConfig, original: string, ds: seq<Detection>, exceptions: seq<ExceptionEntry>): seq<Detection> {
    Filter(Kept(original, ds, exceptions), Meets(cfg))
  }

  /** What `merge` returns. */
  function Merged(
      cfg: MergeConfig, original: string, ds: seq<Detection>, exceptions: seq<ExceptionEntry>): MergeResult {
    MergeResult(
      Winners(Clusters(Passing(cfg, original, ds, exceptions))),
      Filter(Kept(original, ds, exceptions), Not(Meets(cfg))),
      Filter(Validated(original, ds), Excepted(exceptions)),
      Filter(ds, Not(Matches(original))))
  }

  method MergeDetections(
      cfg: MergeConfig, original: string, detections: seq<Detection>, exceptions: seq<ExceptionEntry>)
    returns (result: MergeResult)
    ensures result == Merged(cfg, original, detections, exceptions)
  {
    var validated, spanInvalid := Partition(detections, Matches(original));
    var suppressed := [];
    if |exceptions| > 0 {
      suppressed, validated := Partition(validated, Excepted(exceptions));
    } else {
      FilterAll(validated, Not(Excepted(exceptions)));
      FilterNone(validated, Excepted(exceptions));
    }
    var passing, below := Partition(validated, Meets(cfg));
    var accepted := ResolveOverlaps(passing);
    result := MergeResult(accepted, below, suppressed, spanInvalid);
  }
}
