/** What the merge engine promises: components, disjointness, order independence, idempotence, conservation,
    coverage. */
module MergeProperties {
  import opened Results
  import opened Sequences
  import opened Intervals
  import opened Detections
  import opened Merge

  lemma StartLePreorder()
    ensures TotalPreorder(StartLe)
  {
  }

  lemma RankLePreorder()
    ensures TotalPreorder(RankLe)
  {
  }

  /** Two detections that agree on everything but confidence. */
  predicate SameButConfidence(a: Detection, b: Detection) {
    a.(confidence := b.confidence) == b
  }

  ghost predicate Wide(ds: seq<Detection>) {
    NonEmptySpans(ds, SpanOf)
  }

  lemma PassingMembers(cfg: MergeConfig, original: string, ds: seq<Detection>, exceptions: seq<ExceptionEntry>)
    ensures var t := Passing(cfg, original, ds, exceptions);
      && Wide(t)
      && forall d :: d in t <==>
           d in ds && Passes(cfg, original, exceptions, d)
  {
    FilterMembers(ds, Matches(original));
    FilterMembers(Validated(original, ds), Not(Excepted(exceptions)));
    FilterMembers(Kept(original, ds, exceptions), Meets(cfg));
  }

  lemma ClustersPartition(t: seq<Detection>)
    requires Wide(t)
    ensures SortedByStart(StableSort(t, StartLe), SpanOf) && Wide(StableSort(t, StartLe))
    ensures Flatten(Clusters(t)) == StableSort(t, StartLe)
    ensures multiset(Flatten(Clusters(t))) == multiset(t)
    ensures forall d :: d in t <==> d in Flatten(Clusters(t))
    ensures Separated(Clusters(t), SpanOf)
  {
    StartLePreorder();
    SortSorts(t, StartLe);
    SortPermutes(t, StartLe);
    SortKeepsElements(t, StartLe);
    SweepCorrect(StableSort(t, StartLe), SpanOf);
  }

  /** Two passing detections share a cluster exactly when a chain of overlapping passing detections joins them. */
  lemma ClustersAreComponents(t: seq<Detection>, a: Detection, b: Detection)
    requires Wide(t) && a in t && b in t
    ensures (exists i :: 0 <= i < |Clusters(t)| && a in Clusters(t)[i] && b in Clusters(t)[i])
       <==> Connected(t, a, b, SpanOf)
  {
    ClustersPartition(t);
    var s := StableSort(t, StartLe);
    SweepGroupsAreComponents(s, SpanOf, a, b);
    if Connected(t, a, b, SpanOf) { ConnectedSameItems(t, s, a, b, SpanOf); }
    if Connected(s, a, b, SpanOf) { ConnectedSameItems(s, t, a, b, SpanOf); }
  }

  lemma {:induction false} WinnersAt(clusters: seq<seq<Detection>>)
    requires NonEmptyGroups(clusters)
    ensures |Winners(clusters)| == |clusters|
    ensures forall k :: 0 <= k < |clusters| ==> Winners(clusters)[k] == PickClusterWinner(clusters[k])
  {
    if clusters == [] {
    } else {
      WinnersAt(clusters[1..]);
    }
  }

  /** The cluster member a winner comes from: its first member of least rank. */
  function Origin(cluster: seq<Detection>): Detection
    requires cluster != []
  {
    SortPermutes(cluster, RankLe);
    StableSort(cluster, RankLe)[0]
  }

  lemma WinnerFromCluster(cluster: seq<Detection>)
    requires cluster != []
    ensures Origin(cluster) in cluster && SameButConfidence(PickClusterWinner(cluster), Origin(cluster))
    ensures Origin(cluster).confidence <= PickClusterWinner(cluster).confidence
    ensures PickClusterWinner(cluster).confidence <= 0.99 || PickClusterWinner(cluster) == Origin(cluster)
    ensures forall d :: d in cluster ==> RankLe(Origin(cluster), d)
  {
    RankLePreorder();
    var at := SortHead(cluster, RankLe);
  }

  lemma ClusterSorted(t: seq<Detection>, k: nat)
    requires Wide(t) && k < |Clusters(t)|
    ensures SortedByStart(Clusters(t)[k], SpanOf)
  {
    ClustersPartition(t);
    var base := FlattenSlice(Clusters(t), k);
    SliceSorted(StableSort(t, StartLe), base, base + |Clusters(t)[k]|);
  }

  lemma SliceSorted(s: seq<Detection>, lo: nat, hi: nat)
    requires SortedByStart(s, SpanOf) && lo <= hi <= |s|
    ensures SortedByStart(s[lo..hi], SpanOf)
  {
  }

  /** Among the members that tie with it, a winner has the smallest start: both sorts are stable. */
  lemma WinnerStartsFirst(c: seq<Detection>)
    requires c != [] && SortedByStart(c, SpanOf)
    ensures forall d :: d in c && RankLe(d, Origin(c)) ==> Origin(c).start <= d.start
  {
    RankLePreorder();
    var at := SortHead(c, RankLe);
    forall d | d in c && RankLe(d, Origin(c)) ensures Origin(c).start <= d.start {
      var j :| 0 <= j < |c| && c[j] == d;
      assert at < j ==> SpanOf(c[at]).start <= SpanOf(c[j]).start;
    }
  }

  // ----- Disjointness -----

  /** Groups as the sweep leaves them. */
  ghost predicate Grouped(clusters: seq<seq<Detection>>) {
    NonEmptyGroups(clusters) && Separated(clusters, SpanOf) && Wide(Flatten(clusters))
  }

  lemma OriginSpans(clusters: seq<seq<Detection>>, k: nat)
    requires Grouped(clusters) && k < |clusters|
    ensures Origin(clusters[k]) in clusters[k] && Origin(clusters[k]) in Flatten(clusters)
    ensures |Winners(clusters)| == |clusters| && SameButConfidence(Winners(clusters)[k], Origin(clusters[k]))
    ensures SpanOf(Winners(clusters)[k]) == SpanOf(Origin(clusters[k]))
    ensures SpanOf(Winners(clusters)[k]).start < SpanOf(Winners(clusters)[k]).end
  {
    WinnersAt(clusters);
    FlattenMembers(clusters);
    WinnerFromCluster(clusters[k]);
  }

  lemma WinnersDisjoint(clusters: seq<seq<Detection>>)
    requires Grouped(clusters)
    ensures Disjoint(Winners(clusters)) && Wide(Winners(clusters)) && |Winners(clusters)| == |clusters|
  {
    var out := Winners(clusters);
    WinnersAt(clusters);
    forall i, j | 0 <= i < j < |out| ensures out[i].end <= out[j].start {
      OriginSpans(clusters, i);
      OriginSpans(clusters, j);
      assert SpanOf(Origin(clusters[i])).end <= SpanOf(Origin(clusters[j])).start;
    }
    forall x | x in out ensures SpanOf(x).start < SpanOf(x).end {
      var k :| 0 <= k < |out| && out[k] == x;
      OriginSpans(clusters, k);
    }
  }

  /** The accepted list holds one winner per cluster, in text order and pairwise disjoint. */
  lemma AcceptedDisjoint(t: seq<Detection>)
    requires Wide(t)
    ensures Grouped(Clusters(t))
    ensures var out := Winners(Clusters(t)); Disjoint(out) && Wide(out) && |out| == |Clusters(t)|
    ensures forall k :: 0 <= k < |Clusters(t)| ==>
      Origin(Clusters(t)[k]) in t && SameButConfidence(Winners(Clusters(t))[k], Origin(Clusters(t)[k]))
  {
    ClustersPartition(t);
    var clusters := Clusters(t);
    WinnersDisjoint(clusters);
    forall k | 0 <= k < |clusters|
      ensures Origin(clusters[k]) in t && SameButConfidence(Winners(clusters)[k], Origin(clusters[k]))
    {
      OriginSpans(clusters, k);
    }
  }

  /** Every component of the overlap graph gets exactly one accepted detection. */
  lemma OneWinnerPerComponent(t: seq<Detection>, d: Detection) returns (k: nat)
    requires Wide(t) && d in t
    ensures k < |Winners(Clusters(t))| && k < |Clusters(t)|
    ensures Connected(t, d, Origin(Clusters(t)[k]), SpanOf)
    ensures forall m :: 0 <= m < |Clusters(t)| && Connected(t, d, Origin(Clusters(t)[m]), SpanOf) ==> m == k
  {
    AcceptedDisjoint(t);
    k := ClusterOf(t, d);
    OriginSpans(Clusters(t), k);
    ClustersAreComponents(t, d, Origin(Clusters(t)[k]));
    forall m | 0 <= m < |Clusters(t)| && Connected(t, d, Origin(Clusters(t)[m]), SpanOf) ensures m == k {
      OriginSpans(Clusters(t), m);
      ComponentInCluster(t, m, Origin(Clusters(t)[m]), d);
      SharedMember(Clusters(t), m, k, d);
    }
  }

  lemma ClusterOf(t: seq<Detection>, d: Detection) returns (k: nat)
    requires Wide(t) && d in t
    ensures k < |Clusters(t)| && d in Clusters(t)[k]
  {
    ClustersPartition(t);
    FlattenMembers(Clusters(t));
    k :| 0 <= k < |Clusters(t)| && d in Clusters(t)[k];
  }

  /** A cluster holds everything its members are connected to. */
  lemma ComponentInCluster(t: seq<Detection>, k: nat, w: Detection, d: Detection)
    requires Wide(t) && k < |Clusters(t)| && w in Clusters(t)[k] && w in t && d in t
    requires Connected(t, w, d, SpanOf) || Connected(t, d, w, SpanOf)
    ensures d in Clusters(t)[k]
  {
    if Connected(t, d, w, SpanOf) { ConnectedSymmetric(t, d, w, SpanOf); }
    ClustersAreComponents(t, w, d);
    var i :| 0 <= i < |Clusters(t)| && w in Clusters(t)[i] && d in Clusters(t)[i];
    AcceptedDisjoint(t);
    SharedMember(Clusters(t), i, k, w);
  }

  /** No detection lies in two clusters. */
  lemma SharedMember(clusters: seq<seq<Detection>>, i: nat, j: nat, d: Detection)
    requires Grouped(clusters) && i < |clusters| && j < |clusters| && d in clusters[i] && d in clusters[j]
    ensures i == j
  {
    FlattenMembers(clusters);
    assert SpanOf(d).start < SpanOf(d).end;
  }

  // ----- Order independence -----

  /** w outranks everything in its component, the smallest start deciding ties: said without lists or sorting. */
  ghost predicate Best(t: seq<Detection>, w: Detection) {
    && w in t
    && forall d :: d in t && Connected(t, w, d, SpanOf) ==> RankLe(w, d) && (RankLe(d, w) ==> w.start <= d.start)
  }

  lemma OriginIsBest(t: seq<Detection>, k: nat)
    requires Wide(t) && k < |Clusters(t)|
    ensures Best(t, Origin(Clusters(t)[k]))
  {
    var w := Origin(Clusters(t)[k]);
    AcceptedDisjoint(t);
    WinnerFromCluster(Clusters(t)[k]);
    ClusterSorted(t, k);
    WinnerStartsFirst(Clusters(t)[k]);
    forall d | d in t && Connected(t, w, d, SpanOf) ensures d in Clusters(t)[k] {
      ComponentInCluster(t, k, w, d);
    }
  }

  /** What reordering cannot change: span, text, tier and detector precedence. */
  predicate SameVerdict(a: Detection, b: Detection) {
    a.start == b.start && a.end == b.end && a.tier == b.tier && DetectorRank(a.detector) == DetectorRank(b.detector)
  }

  lemma MatchingWinner(t: seq<Detection>, u: seq<Detection>, k: nat) returns (m: nat)
    requires Wide(t) && Wide(u) && (forall d :: d in t <==> d in u) && k < |Winners(Clusters(t))|
    ensures m < |Winners(Clusters(u))| && SameVerdict(Winners(Clusters(t))[k], Winners(Clusters(u))[m])
  {
    AcceptedDisjoint(t);
    AcceptedDisjoint(u);
    var w := Origin(Clusters(t)[k]);
    OriginIsBest(t, k);
    m := OneWinnerPerComponent(u, w);
    OriginIsBest(u, m);
    var v := Origin(Clusters(u)[m]);
    ConnectedSameItems(u, t, w, v, SpanOf);
    ConnectedSymmetric(u, w, v, SpanOf);
    assert RankLe(w, v) && RankLe(v, w);
  }

  lemma VerdictsSubset(t: seq<Detection>, u: seq<Detection>)
    requires Wide(t) && Wide(u) && (forall d :: d in t <==> d in u)
    ensures forall x :: x in Starts(Winners(Clusters(t))) ==> x in Starts(Winners(Clusters(u)))
  {
    var a, b := Starts(Winners(Clusters(t))), Starts(Winners(Clusters(u)));
    forall x | x in a ensures x in b {
      var k :| 0 <= k < |a| && a[k] == x;
      var m := MatchingWinner(t, u, k);
      assert b[m] == x;
    }
  }

  function Starts(ds: seq<Detection>): seq<int> {
    seq(|ds|, i requires 0 <= i < |ds| => ds[i].start)
  }

  lemma WinnersOrderFree(t: seq<Detection>, u: seq<Detection>)
    requires Wide(t) && Wide(u) && (forall d :: d in t <==> d in u)
    ensures |Winners(Clusters(t))| == |Winners(Clusters(u))|
    ensures forall k :: 0 <= k < |Winners(Clusters(t))| ==>
      SameVerdict(Winners(Clusters(t))[k], Winners(Clusters(u))[k])
  {
    var a, b := Winners(Clusters(t)), Winners(Clusters(u));
    AcceptedDisjoint(t);
    AcceptedDisjoint(u);
    StartsIncrease(a);
    StartsIncrease(b);
    VerdictsSubset(t, u);
    VerdictsSubset(u, t);
    IncreasingUnique(Starts(a), Starts(b));
    assert |a| == |Starts(a)| == |b|;
    forall k | 0 <= k < |a| ensures SameVerdict(a[k], b[k]) {
      var m := MatchingWinner(t, u, k);
      assert Starts(a)[k] == Starts(b)[k];
      assert Starts(b)[m] == Starts(b)[k];
    }
  }

  lemma StartsIncrease(out: seq<Detection>)
    requires Disjoint(out) && Wide(out)
    ensures StrictlyIncreasing(Starts(out))
  {
    forall i, j | 0 <= i < j < |out| ensures Starts(out)[i] < Starts(out)[j] {
      assert out[i] in out && SpanOf(out[i]).start < SpanOf(out[i]).end;
    }
  }

  /** Reordering (or repeating) the detections given to `merge` changes no accepted span, text, tier or precedence. */
  lemma PermutationInvariance(
      cfg: MergeConfig, original: string, ds: seq<Detection>, es: seq<Detection>, exceptions: seq<ExceptionEntry>)
    requires forall d :: d in ds <==> d in es
    ensures var a := Merged(cfg, original, ds, exceptions).accepted;
      var b := Merged(cfg, original, es, exceptions).accepted;
      |a| == |b| && forall k :: 0 <= k < |a| ==> SameVerdict(a[k], b[k]) && a[k].text == b[k].text
  {
    PassingMembers(cfg, original, ds, exceptions);
    PassingMembers(cfg, original, es, exceptions);
    WinnersOrderFree(Passing(cfg, original, ds, exceptions), Passing(cfg, original, es, exceptions));
    AcceptedMatchText(cfg, original, ds, exceptions);
    AcceptedMatchText(cfg, original, es, exceptions);
  }

  /** The accepted list: ordered, disjoint, and each text is the source's own characters. */
  lemma AcceptedMatchText(cfg: MergeConfig, original: string, ds: seq<Detection>, exceptions: seq<ExceptionEntry>)
    ensures var a := Merged(cfg, original, ds, exceptions).accepted;
      && Disjoint(a) && Wide(a)
      && forall k :: 0 <= k < |a| ==> SpanMatches(original, a[k])
  {
    PassingMembers(cfg, original, ds, exceptions);
    AcceptedDisjoint(Passing(cfg, original, ds, exceptions));
  }

  // ----- Idempotence -----

  predicate Passes(cfg: MergeConfig, original: string, exceptions: seq<ExceptionEntry>, d: Detection) {
    SpanMatches(original, d) && !Suppressed(exceptions, d) && MeetsThreshold(cfg, d)
  }

  /** Raising the confidence keeps a detection from being rejected. */
  lemma RaisedPasses(cfg: MergeConfig, original: string, exceptions: seq<ExceptionEntry>, w: Detection, d: Detection)
    requires SameButConfidence(d, w) && w.confidence <= d.confidence && Passes(cfg, original, exceptions, w)
    ensures Passes(cfg, original, exceptions, d)
  {
    assert w == d.(confidence := w.confidence);
    forall exc | exc in exceptions ensures !ExceptionApplies(exc, d) {
      assert !ExceptionApplies(exc, w);
    }
  }

  lemma AcceptedPassAgain(cfg: MergeConfig, original: string, ds: seq<Detection>, exceptions: seq<ExceptionEntry>)
    ensures forall d :: d in Merged(cfg, original, ds, exceptions).accepted ==> Passes(cfg, original, exceptions, d)
  {
    var t := Passing(cfg, original, ds, exceptions);
    PassingMembers(cfg, original, ds, exceptions);
    AcceptedDisjoint(t);
    WinnersAt(Clusters(t));
    var out := Winners(Clusters(t));
    forall d | d in out ensures Passes(cfg, original, exceptions, d) {
      var k :| 0 <= k < |out| && out[k] == d;
      WinnerFromCluster(Clusters(t)[k]);
      RaisedPasses(cfg, original, exceptions, Origin(Clusters(t)[k]), d);
    }
  }

  lemma WinnersOfDisjoint(out: seq<Detection>)
    requires Disjoint(out) && Wide(out)
    ensures Winners(Clusters(out)) == out
  {
    forall i, j | 0 <= i < j < |out| ensures StartLe(out[i], out[j]) {
      assert out[i] in out && SpanOf(out[i]).start < SpanOf(out[i]).end;
    }
    SortOfSorted(out, StartLe);
    SweepOfDisjoint(out, SpanOf);
    WinnersAt(Clusters(out));
  }

  /** Merging the accepted list again returns it unchanged and rejects nothing. */
  lemma MergeIdempotent(cfg: MergeConfig, original: string, ds: seq<Detection>, exceptions: seq<ExceptionEntry>)
    ensures var a := Merged(cfg, original, ds, exceptions).accepted;
      Merged(cfg, original, a, exceptions) == MergeResult(a, [], [], [])
  {
    var a := Merged(cfg, original, ds, exceptions).accepted;
    AcceptedPassAgain(cfg, original, ds, exceptions);
    AcceptedMatchText(cfg, original, ds, exceptions);
    FilterAll(a, Matches(original));
    FilterNone(a, Not(Matches(original)));
    FilterAll(a, Not(Excepted(exceptions)));
    FilterNone(a, Excepted(exceptions));
    FilterAll(a, Meets(cfg));
    FilterNone(a, Not(Meets(cfg)));
    WinnersOfDisjoint(a);
  }

  // ----- Conservation and dominance -----

  /** Every detection given in ends up in exactly one of the four outcomes. */
  lemma Conservation(cfg: MergeConfig, original: string, ds: seq<Detection>, exceptions: seq<ExceptionEntry>)
    ensures var r := Merged(cfg, original, ds, exceptions);
      var clusters := Clusters(Passing(cfg, original, ds, exceptions));
      && multiset(ds) == multiset(r.spanInvalid) + multiset(r.exceptionSuppressed) + multiset(r.belowThreshold)
                       + multiset(Flatten(clusters))
      && |r.accepted| == |clusters|
  {
    FilterSplits(ds, Matches(original));
    FilterSplits(Validated(original, ds), Excepted(exceptions));
    FilterSplits(Kept(original, ds, exceptions), Meets(cfg));
    PassingMembers(cfg, original, ds, exceptions);
    ClustersPartition(Passing(cfg, original, ds, exceptions));
    WinnersAt(Clusters(Passing(cfg, original, ds, exceptions)));
  }

  /** A winner is an input detection, at most more confident, and at least as long as anything in its cluster. */
  lemma Dominance(cfg: MergeConfig, original: string, ds: seq<Detection>, exceptions: seq<ExceptionEntry>, k: nat)
    requires k < |Merged(cfg, original, ds, exceptions).accepted|
    ensures var t := Passing(cfg, original, ds, exceptions);
      var w := Merged(cfg, original, ds, exceptions).accepted[k];
      && k < |Clusters(t)|
      && (exists d :: d in ds && d in Clusters(t)[k] && SameButConfidence(w, d) && d.confidence <= w.confidence)
      && (forall d :: d in Clusters(t)[k] ==> Length(d) <= Length(w))
      && ((forall d :: d in ds ==> d.Valid()) ==> w.Valid())
  {
    var t := Passing(cfg, original, ds, exceptions);
    PassingMembers(cfg, original, ds, exceptions);
    WinnersAt(Clusters(t));
    AcceptedDisjoint(t);
    WinnerFromCluster(Clusters(t)[k]);
    var o := Origin(Clusters(t)[k]);
    assert o in ds && o in Clusters(t)[k] && SameButConfidence(Winners(Clusters(t))[k], o);
  }

  // ----- What the documentation says and the code does not do -----

  ghost predicate SameSpan(a: Detection, b: Detection) {
    a.start == b.start && a.end == b.end
  }

  /** `best` is the largest confidence seen on w's span. */
  ghost predicate BestOnSpan(cluster: seq<Detection>, w: Detection, best: real) {
    && (forall d :: d in cluster && SameSpan(d, w) ==> d.confidence <= best)
    && (exists d :: d in cluster && SameSpan(d, w) && d.confidence == best)
  }

  /** The documented `max + 0.05, capped at 0.99` holds of a corroborated winner exactly when the
      winner itself carries the maximum or is within 0.05 of the cap, and is not already past the cap. */
  lemma DocumentedBoost(cluster: seq<Detection>, best: real)
    requires cluster != [] && Corroborated(cluster, Origin(cluster)) && BestOnSpan(cluster, Origin(cluster), best)
    ensures var c := Origin(cluster).confidence;
      PickClusterWinner(cluster).confidence == (if best + 0.05 < 0.99 then best + 0.05 else 0.99)
      <==> c <= 0.99 && (c == best || c >= 0.94)
  {
    WinnerFromCluster(cluster);
    assert SameSpan(Origin(cluster), Origin(cluster));
    assert |cluster| > 1 by {
      var other :| other in cluster && other.detector != Origin(cluster).detector;
      var i :| 0 <= i < |cluster| && cluster[i] == other;
      var j :| 0 <= j < |cluster| && cluster[j] == Origin(cluster);
      assert i != j;
    }
  }

  // ----- Detector precedence -----

  ghost predicate Longest(cluster: seq<Detection>, d: Detection) {
    d in cluster && forall e :: e in cluster ==> Length(e) <= Length(d)
  }

  /** No longest member comes from a stronger detector. */
  ghost predicate BestDetector(cluster: seq<Detection>, d: Detection) {
    Longest(cluster, d) && forall e :: Longest(cluster, e) ==> DetectorRank(d.detector) <= DetectorRank(e.detector)
  }

  ghost predicate LeastTier(cluster: seq<Detection>, d: Detection) {
    forall e :: Longest(cluster, e) ==> d.tier <= e.tier
  }

  /** The documented "on equal length, detector precedence" holds of a winner exactly when one of the longest
      members has the best precedence and the least tier at once. */
  lemma DocumentedPrecedence(cluster: seq<Detection>)
    requires cluster != []
    ensures BestDetector(cluster, Origin(cluster))
       <==> exists d :: BestDetector(cluster, d) && LeastTier(cluster, d)
  {
    var o := Origin(cluster);
    WinnerFromCluster(cluster);
    forall e | Longest(cluster, e) ensures Longest(cluster, o) && o.tier <= e.tier {
      assert RankLe(o, e);
    }
    if d :| BestDetector(cluster, d) && LeastTier(cluster, d) {
      assert RankLe(o, d) && Longest(cluster, o);
    }
    if BestDetector(cluster, o) {
      assert LeastTier(cluster, o);
    }
  }

  /** A weaker detector never claims a stronger tier. */
  ghost predicate TierFollowsDetector(cluster: seq<Detection>) {
    forall a, b :: a in cluster && b in cluster && DetectorRank(a.detector) < DetectorRank(b.detector) ==>
      a.tier < b.tier
  }

  /** It holds of every winner as long as no detector claims the tier of a stronger one. */
  lemma PrecedenceByTier(cluster: seq<Detection>)
    requires cluster != [] && TierFollowsDetector(cluster)
    ensures BestDetector(cluster, Origin(cluster))
  {
    var o := Origin(cluster);
    WinnerFromCluster(cluster);
    assert forall e :: e in cluster ==> RankLe(o, e);
  }

  /** The tiers the gateway's own detectors write. */
  predicate OwnDetector(d: Detection) {
    || (d.detector == "structural.dz" && d.tier == 1)
    || (d.detector == "ner" && d.tier == 2)
    || (d.detector == "contextual" && d.tier == 3)
  }

  /** So it holds of everything the gateway's own detectors report. */
  lemma OwnDetectorsKeepPrecedence(cluster: seq<Detection>)
    requires cluster != [] && forall d :: d in cluster ==> OwnDetector(d)
    ensures BestDetector(cluster, Origin(cluster))
  {
    PrecedenceByTier(cluster);
  }

  /** An NER detection of tier 1 beats a structural one of tier 2 on the same span. */
  lemma TierBeatsPrecedence()
    ensures var a, b := Seen(0, 3, 0.90, "ner").(tier := 1), Seen(0, 3, 0.90, "structural");
      Origin([b, a]) == a && !BestDetector([b, a], a)
  {
    var a, b := Seen(0, 3, 0.90, "ner").(tier := 1), Seen(0, 3, 0.90, "structural");
    WinnerFromCluster([b, a]);
    assert [b, a][0] == b && b in [b, a] && a in [b, a];
    assert RankLe(Origin([b, a]), a) && Longest([b, a], b);
  }

  /** An accepted detection covers position p of the text. */
  ghost predicate Covered(out: seq<Detection>, p: int) {
    exists a :: a in out && a.start <= p < a.end
  }

  /** Some member of the cluster spans all of it. */
  ghost predicate HasSpanningMember(cluster: seq<Detection>) {
    exists m :: m in cluster && forall d :: d in cluster ==> m.start <= d.start && d.end <= m.end
  }

  lemma OnlyOwnWinnerCovers(clusters: seq<seq<Detection>>, k: nat, d: Detection, p: int)
    requires Grouped(clusters) && k < |clusters| && d in clusters[k] && d.start <= p < d.end
    requires Covered(Winners(clusters), p)
    ensures Origin(clusters[k]).start <= p < Origin(clusters[k]).end
  {
    var out := Winners(clusters);
    WinnersAt(clusters);
    var a :| a in out && a.start <= p < a.end;
    var m :| 0 <= m < |out| && out[m] == a;
    OriginSpans(clusters, m);
    var o := Origin(clusters[m]);
    assert m < k ==> SpanOf(o).end <= SpanOf(d).start;
    assert k < m ==> SpanOf(d).end <= SpanOf(o).start;
  }

  lemma CoveredNeedsSpanningMember(clusters: seq<seq<Detection>>, k: nat)
    requires Grouped(clusters) && k < |clusters|
    requires forall d: Detection, p :: d in clusters[k] && d.start <= p < d.end ==> Covered(Winners(clusters), p)
    ensures HasSpanningMember(clusters[k])
  {
    FlattenMembers(clusters);
    var o := Origin(clusters[k]);
    OriginSpans(clusters, k);
    forall d: Detection | d in clusters[k] ensures o.start <= d.start && d.end <= o.end {
      assert SpanOf(d).start < SpanOf(d).end;
      OnlyOwnWinnerCovers(clusters, k, d, d.start);
      OnlyOwnWinnerCovers(clusters, k, d, d.end - 1);
    }
  }

  lemma SpanningMemberCovers(clusters: seq<seq<Detection>>, k: nat, d: Detection, p: int)
    requires Grouped(clusters) && k < |clusters| && HasSpanningMember(clusters[k])
    requires d in clusters[k] && d.start <= p < d.end
    ensures Covered(Winners(clusters), p)
  {
    OriginSpans(clusters, k);
    WinnerFromCluster(clusters[k]);
    var m :| m in clusters[k] && forall d :: d in clusters[k] ==> m.start <= d.start && d.end <= m.end;
    assert RankLe(Origin(clusters[k]), m);
    assert Winners(clusters)[k] in Winners(clusters);
  }

  /** Every character of every one of these detections is inside an accepted span. */
  ghost predicate AllCovered(ds: seq<Detection>, out: seq<Detection>) {
    forall d: Detection, p :: d in ds && d.start <= p < d.end ==> Covered(out, p)
  }

  lemma SpanningCovers(t: seq<Detection>)
    requires Wide(t) && forall k :: 0 <= k < |Clusters(t)| ==> HasSpanningMember(Clusters(t)[k])
    ensures AllCovered(t, Winners(Clusters(t)))
  {
    AcceptedDisjoint(t);
    forall d: Detection, p | d in t && d.start <= p < d.end ensures Covered(Winners(Clusters(t)), p) {
      var k := ClusterOf(t, d);
      SpanningMemberCovers(Clusters(t), k, d, p);
    }
  }

  lemma CoverageSpans(t: seq<Detection>, k: nat)
    requires Wide(t) && AllCovered(t, Winners(Clusters(t))) && k < |Clusters(t)|
    ensures HasSpanningMember(Clusters(t)[k])
  {
    AcceptedDisjoint(t);
    ClustersPartition(t);
    FlattenMembers(Clusters(t));
    CoveredNeedsSpanningMember(Clusters(t), k);
  }

  /** Every character of every passing detection is inside an accepted span exactly when each
      component has a member that spans the whole component; otherwise characters are left uncovered. */
  lemma CoverageExactly(t: seq<Detection>)
    requires Wide(t)
    ensures AllCovered(t, Winners(Clusters(t)))
       <==> (forall k :: 0 <= k < |Clusters(t)| ==> HasSpanningMember(Clusters(t)[k]))
  {
    if forall k :: 0 <= k < |Clusters(t)| ==> HasSpanningMember(Clusters(t)[k]) {
      SpanningCovers(t);
    }
    if AllCovered(t, Winners(Clusters(t))) {
      forall k | 0 <= k < |Clusters(t)| ensures HasSpanningMember(Clusters(t)[k]) {
        CoverageSpans(t, k);
      }
    }
  }

  function Seen(start: nat, end: nat, confidence: real, detector: string): Detection
    requires start < end
  {
    Detection("custom", start, end, seq(end - start, i => 'x'), confidence, 2, detector, None)
  }

  /** Structural at 0.80 and NER at 0.95 on one span: the winner ends at 0.85, not at the documented 0.99. */
  lemma BoostMissesMaximum()
    ensures var cluster := [Seen(0, 3, 0.80, "structural"), Seen(0, 3, 0.95, "ner")];
      PickClusterWinner(cluster).confidence == 0.85
  {
    var a, b := Seen(0, 3, 0.80, "structural"), Seen(0, 3, 0.95, "ner");
    var cluster := [a, b];
    assert RankLe(a, b) && cluster[1..] == [b] && [b][1..] == [];
    SortOfSorted(cluster, RankLe);
    assert b in cluster;
  }

  /** A chain of three detections, each overlapping the next but not the one after: whichever wins,
      characters of the others stay uncovered. */
  lemma ChainLeavesUncovered(a: Detection, b: Detection, c: Detection)
    requires a.start < b.start < a.end <= c.start < b.end < c.end
    ensures exists d: Detection, p ::
      d in [a, b, c] && d.start <= p < d.end && !Covered(Winners(Clusters([a, b, c])), p)
  {
    ChainIsOneCluster(a, b, c);
    CoverageExactly([a, b, c]);
    NoMemberSpansChain(a, b, c);
    assert !HasSpanningMember(Clusters([a, b, c])[0]);
  }

  lemma NoMemberSpansChain(a: Detection, b: Detection, c: Detection)
    requires a.start < b.start < a.end <= c.start < b.end < c.end
    ensures !HasSpanningMember([a, b, c])
  {
    var t := [a, b, c];
    assert t[0] in t && t[2] in t;
  }

  lemma ChainIsOneCluster(a: Detection, b: Detection, c: Detection)
    requires a.start < b.start < a.end <= c.start < b.end < c.end
    ensures Clusters([a, b, c]) == [[a, b, c]]
  {
    var t := [a, b, c];
    SortOfSorted(t, StartLe);
    SweepStep([], [a], a.end, t, 1, SpanOf);
    SweepStep([], [a, b], b.end, t, 2, SpanOf);
    assert [a] + [b] == [a, b] && [a, b] + [c] == t && t[3..] == [];
    assert Sweep(t, SpanOf) == [] + SweepFrom([a], a.end, t[1..], SpanOf);
    assert SweepFrom(t, c.end, [], SpanOf) == [t];
  }
}
