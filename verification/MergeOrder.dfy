/** What the order of the detections decides: among equal claims the first detected wins, and nothing else. */
module MergeOrder {
  import opened Sequences
  import opened Intervals
  import opened Detections
  import opened Merge
  import opened MergeProperties

  lemma {:induction false} FlattenAround<T>(groups: seq<seq<T>>, k: nat)
    requires k < |groups|
    ensures Flatten(groups) == Flatten(groups[..k]) + groups[k] + Flatten(groups[k + 1..])
  {
    if k == 0 {
      assert Flatten(groups[..0]) == [];
    } else {
      FlattenAround(groups[1..], k - 1);
      assert groups[..k][1..] == groups[1..][..k - 1] && groups[1..][k..] == groups[k + 1..];
    }
  }

  // ----- The first detected wins -----

  /** Detections that claim the same span with the same authority as o. */
  function SameClaim(o: Detection): Detection -> bool {
    d => SameVerdict(o, d)
  }

  function TiesWith(le: (Detection, Detection) -> bool, o: Detection): Detection -> bool {
    y => Ties(le, o, y)
  }

  lemma SameSpanSameCluster(clusters: seq<seq<Detection>>, i: nat, k: nat, a: Detection, b: Detection)
    requires Separated(clusters, SpanOf) && i < |clusters| && k < |clusters| && a in clusters[i] && b in clusters[k]
    requires a.start == b.start && a.end == b.end && a.start < a.end
    ensures i == k
  {
    assert i < k ==> SpanOf(a).end <= SpanOf(b).start;
    assert k < i ==> SpanOf(b).end <= SpanOf(a).start;
  }

  /** A cluster has all the claims that equal one of its own. */
  lemma ClaimsInCluster(clusters: seq<seq<Detection>>, k: nat, o: Detection)
    requires Grouped(clusters) && k < |clusters| && o in clusters[k] && o.start < o.end
    ensures Filter(Flatten(clusters), SameClaim(o)) == Filter(clusters[k], SameClaim(o))
  {
    FlattenAround(clusters, k);
    NoClaimBeside(clusters, k, o);
    FilterMiddle(Flatten(clusters[..k]), clusters[k], Flatten(clusters[k + 1..]), SameClaim(o));
  }

  lemma NoClaimBeside(clusters: seq<seq<Detection>>, k: nat, o: Detection)
    requires Grouped(clusters) && k < |clusters| && o in clusters[k] && o.start < o.end
    ensures Filter(Flatten(clusters[..k]), SameClaim(o)) == []
    ensures Filter(Flatten(clusters[k + 1..]), SameClaim(o)) == []
  {
    forall i, x | 0 <= i < k && x in clusters[..k][i] ensures !SameVerdict(o, x) {
      NoClaimElsewhere(clusters, i, k, x, o);
    }
    NoneInFlatten(clusters[..k], SameClaim(o));
    var after := clusters[k + 1..];
    forall i, x | 0 <= i < |after| && x in after[i] ensures !SameVerdict(o, x) {
      NoClaimElsewhere(clusters, k + 1 + i, k, x, o);
    }
    NoneInFlatten(after, SameClaim(o));
  }

  lemma NoClaimElsewhere(clusters: seq<seq<Detection>>, i: nat, k: nat, x: Detection, o: Detection)
    requires Separated(clusters, SpanOf) && i < |clusters| && k < |clusters| && i != k
    requires x in clusters[i] && o in clusters[k] && o.start < o.end
    ensures !SameVerdict(o, x)
  {
    if SameVerdict(o, x) {
      SameSpanSameCluster(clusters, i, k, x, o);
    }
  }

  lemma NoneInFlatten<T>(groups: seq<seq<T>>, p: T -> bool)
    requires forall i, x :: 0 <= i < |groups| && x in groups[i] ==> !p(x)
    ensures Filter(Flatten(groups), p) == []
  {
    FlattenMembers(groups);
    FilterNone(Flatten(groups), p);
  }

  lemma OriginFirstInCluster(c: seq<Detection>)
    requires c != []
    ensures Filter(c, SameClaim(Origin(c))) != [] && Filter(c, SameClaim(Origin(c)))[0] == Origin(c)
  {
    var o := Origin(c);
    RankLePreorder();
    SortStable(c, RankLe, o);
    assert Filter(c, TiesWith(RankLe, o)) == Filter(StableSort(c, RankLe), TiesWith(RankLe, o));
    SortPermutes(c, RankLe);
    assert TiesWith(RankLe, o)(o);
    FilterHead(c, TiesWith(RankLe, o), SameClaim(o));
  }

  lemma SortKeepsClaims(t: seq<Detection>, o: Detection)
    ensures Filter(StableSort(t, StartLe), SameClaim(o)) == Filter(t, SameClaim(o))
  {
    StartLePreorder();
    SortStable(t, StartLe, o);
    var ties, s := TiesWith(StartLe, o), StableSort(t, StartLe);
    assert Filter(s, ties) == Filter(t, ties);
    FilterFilter(s, ties, SameClaim(o));
    FilterFilter(t, ties, SameClaim(o));
  }

  /** Among the detections that make a winner's claim, the first detected is the one it comes from. */
  lemma FirstDetectedWins(t: seq<Detection>, k: nat)
    requires Wide(t) && k < |Clusters(t)|
    ensures var o := Origin(Clusters(t)[k]);
      Filter(t, SameClaim(o)) != [] && Filter(t, SameClaim(o))[0] == o
  {
    var o := Origin(Clusters(t)[k]);
    AcceptedDisjoint(t);
    OriginSpans(Clusters(t), k);
    OriginFirstInCluster(Clusters(t)[k]);
    ClaimsInCluster(Clusters(t), k, o);
    ClustersPartition(t);
    SortKeepsClaims(t, o);
  }

  // ----- When the order decides nothing -----

  /** Corroboration does not look beyond the span, so it can be read off all the detections. */
  lemma CorroboratedInCluster(t: seq<Detection>, k: nat, o: Detection)
    requires Wide(t) && k < |Clusters(t)| && o in Clusters(t)[k]
    ensures Corroborated(t, o) <==> Corroborated(Clusters(t)[k], o)
  {
    var clusters := Clusters(t);
    ClustersPartition(t);
    FlattenMembers(clusters);
    forall other | other in t && other.start == o.start && other.end == o.end ensures other in clusters[k] {
      var i :| 0 <= i < |clusters| && other in clusters[i];
      SameSpanSameCluster(clusters, i, k, other, o);
    }
  }

  lemma WinnerIsBoosted(t: seq<Detection>, k: nat)
    requires Wide(t) && k < |Clusters(t)|
    ensures |Winners(Clusters(t))| == |Clusters(t)|
    ensures Winners(Clusters(t))[k] == Boost(t, Origin(Clusters(t)[k]))
  {
    var c := Clusters(t)[k];
    AcceptedDisjoint(t);
    WinnersAt(Clusters(t));
    OriginSpans(Clusters(t), k);
    CorroboratedInCluster(t, k, Origin(c));
    BoostAlone(c);
  }

  lemma BoostAlone(c: seq<Detection>)
    requires c != []
    ensures PickClusterWinner(c) == Boost(c, Origin(c))
  {
    WinnerFromCluster(c);
  }

  lemma BoostSameItems(t: seq<Detection>, u: seq<Detection>, w: Detection)
    requires forall d :: d in t <==> d in u
    ensures Boost(t, w) == Boost(u, w)
  {
    assert Corroborated(t, w) <==> Corroborated(u, w);
  }

  lemma BestSameItems(t: seq<Detection>, u: seq<Detection>, w: Detection)
    requires forall d :: d in t <==> d in u
    ensures Best(t, w) <==> Best(u, w)
  {
    forall d | d in t ensures Connected(t, w, d, SpanOf) <==> Connected(u, w, d, SpanOf) {
      if Connected(t, w, d, SpanOf) {
        ConnectedSameItems(t, u, w, d, SpanOf);
      }
      if Connected(u, w, d, SpanOf) {
        ConnectedSameItems(u, t, w, d, SpanOf);
      }
    }
  }

  /** Two detections that are best in one component make the same claim. */
  lemma BestSameClaim(t: seq<Detection>, a: Detection, b: Detection)
    requires Best(t, a) && Best(t, b) && Connected(t, a, b, SpanOf)
    ensures SameVerdict(a, b)
  {
    ConnectedSymmetric(t, a, b, SpanOf);
    assert RankLe(a, b) && RankLe(b, a);
  }

  /** Whichever of its best detections a component's winner comes from, what is accepted is the same. */
  ghost predicate OneVerdict(t: seq<Detection>) {
    forall a, b :: Best(t, a) && Best(t, b) && Connected(t, a, b, SpanOf) ==> Boost(t, a) == Boost(t, b)
  }

  lemma OverlapConnected(t: seq<Detection>, a: Detection, b: Detection)
    requires a in t && b in t && Overlap(SpanOf(a), SpanOf(b))
    ensures Connected(t, a, b, SpanOf)
  {
    assert IsPath(t, [a, b], a, b, SpanOf);
  }

  lemma SameVerdictsAccepted(t: seq<Detection>, u: seq<Detection>, k: nat)
    requires Wide(t) && Wide(u) && (forall d :: d in t <==> d in u) && OneVerdict(t)
    requires k < |Clusters(t)| && k < |Clusters(u)|
    requires k < |Winners(Clusters(t))| && k < |Winners(Clusters(u))|
    requires SameVerdict(Winners(Clusters(t))[k], Winners(Clusters(u))[k])
    ensures Winners(Clusters(t))[k] == Winners(Clusters(u))[k]
  {
    var o, v := Origin(Clusters(t)[k]), Origin(Clusters(u)[k]);
    AcceptedDisjoint(t);
    OriginIsBest(t, k);
    OriginIsBest(u, k);
    BestSameItems(t, u, v);
    WinnerIsBoosted(t, k);
    WinnerIsBoosted(u, k);
    BoostSameItems(t, u, v);
    assert SpanOf(o) == SpanOf(v) && SpanOf(o).start < SpanOf(o).end;
    OverlapConnected(t, o, v);
  }

  lemma OrderFree(t: seq<Detection>, u: seq<Detection>)
    requires Wide(t) && Wide(u) && (forall d :: d in t <==> d in u) && OneVerdict(t)
    ensures Winners(Clusters(t)) == Winners(Clusters(u))
  {
    AcceptedDisjoint(t);
    AcceptedDisjoint(u);
    WinnersOrderFree(t, u);
    forall k | 0 <= k < |Winners(Clusters(t))| ensures Winners(Clusters(t))[k] == Winners(Clusters(u))[k] {
      SameVerdictsAccepted(t, u, k);
    }
  }

  /** A best detection that comes first in the list is accepted. */
  lemma FirstBestAccepted(t: seq<Detection>, a: Detection) returns (k: nat)
    requires Wide(t) && Best(t, a) && t[0] == a
    ensures k < |Winners(Clusters(t))| && Winners(Clusters(t))[k] == Boost(t, a)
  {
    AcceptedDisjoint(t);
    k := OneWinnerPerComponent(t, a);
    var o := Origin(Clusters(t)[k]);
    OriginIsBest(t, k);
    BestSameClaim(t, a, o);
    FirstDetectedWins(t, k);
    assert Filter(t, SameClaim(o))[0] == a;
    WinnerIsBoosted(t, k);
  }

  /** What `merge` accepts of the detections in another order. */
  ghost predicate Reordered(ds: seq<Detection>, es: seq<Detection>) {
    multiset(es) == multiset(ds)
  }

  lemma ReorderedMembers(ds: seq<Detection>, es: seq<Detection>)
    requires Reordered(ds, es)
    ensures forall d :: d in ds <==> d in es
  {
    forall d ensures d in ds <==> d in es {
      assert d in ds <==> d in multiset(ds);
      assert d in es <==> d in multiset(es);
    }
  }

  function ToFront(ds: seq<Detection>, i: nat): seq<Detection>
    requires i < |ds|
  {
    [ds[i]] + ds[..i] + ds[i + 1..]
  }

  lemma ToFrontReorders(ds: seq<Detection>, i: nat)
    requires i < |ds|
    ensures Reordered(ds, ToFront(ds, i)) && ToFront(ds, i)[0] == ds[i]
  {
    assert ds == ds[..i] + [ds[i]] + ds[i + 1..];
  }

  /** A passing detection in front stays in front. */
  lemma PassingFront(cfg: MergeConfig, original: string, ds: seq<Detection>, exceptions: seq<ExceptionEntry>)
    requires ds != [] && Passes(cfg, original, exceptions, ds[0])
    ensures Passing(cfg, original, ds, exceptions) != [] && Passing(cfg, original, ds, exceptions)[0] == ds[0]
  {
  }

  /** With a best detection moved to the front, that one is accepted. */
  lemma BestToFront(
      cfg: MergeConfig, original: string, ds: seq<Detection>, exceptions: seq<ExceptionEntry>, a: Detection)
    returns (es: seq<Detection>, k: nat)
    requires Best(Passing(cfg, original, ds, exceptions), a)
    ensures Reordered(ds, es) && k < |Merged(cfg, original, es, exceptions).accepted|
    ensures Merged(cfg, original, es, exceptions).accepted[k] == Boost(Passing(cfg, original, ds, exceptions), a)
  {
    var t := Passing(cfg, original, ds, exceptions);
    PassingMembers(cfg, original, ds, exceptions);
    var i :| 0 <= i < |ds| && ds[i] == a;
    es := ToFront(ds, i);
    ToFrontReorders(ds, i);
    ReorderedMembers(ds, es);
    PassingMembers(cfg, original, es, exceptions);
    PassingFront(cfg, original, es, exceptions);
    var u := Passing(cfg, original, es, exceptions);
    BestSameItems(t, u, a);
    BoostSameItems(t, u, a);
    k := FirstBestAccepted(u, a);
  }

  ghost predicate OrderDecidesNothing(
      cfg: MergeConfig, original: string, ds: seq<Detection>, exceptions: seq<ExceptionEntry>)
  {
    forall es :: Reordered(ds, es) ==>
      Merged(cfg, original, es, exceptions).accepted == Merged(cfg, original, ds, exceptions).accepted
  }

  /** Reordering the detections leaves the accepted list as it is, entity types and all, if and only if in each
      component every best detection would be accepted as the same. */
  lemma OrderFreeExactly(cfg: MergeConfig, original: string, ds: seq<Detection>, exceptions: seq<ExceptionEntry>)
    ensures OrderDecidesNothing(cfg, original, ds, exceptions)
       <==> OneVerdict(Passing(cfg, original, ds, exceptions))
  {
    var t := Passing(cfg, original, ds, exceptions);
    PassingMembers(cfg, original, ds, exceptions);
    if OneVerdict(t) {
      forall es | Reordered(ds, es)
        ensures Merged(cfg, original, es, exceptions).accepted == Merged(cfg, original, ds, exceptions).accepted
      {
        ReorderedMembers(ds, es);
        PassingMembers(cfg, original, es, exceptions);
        OrderFree(t, Passing(cfg, original, es, exceptions));
      }
    }
    if OrderDecidesNothing(cfg, original, ds, exceptions) {
      forall a, b | Best(t, a) && Best(t, b) && Connected(t, a, b, SpanOf) ensures Boost(t, a) == Boost(t, b) {
        BothAccepted(cfg, original, ds, exceptions, a, b);
      }
    }
  }

  lemma BothAccepted(
      cfg: MergeConfig, original: string, ds: seq<Detection>, exceptions: seq<ExceptionEntry>, a: Detection,
      b: Detection)
    requires OrderDecidesNothing(cfg, original, ds, exceptions)
    requires var t := Passing(cfg, original, ds, exceptions);
      Best(t, a) && Best(t, b) && Connected(t, a, b, SpanOf)
    ensures Boost(Passing(cfg, original, ds, exceptions), a) == Boost(Passing(cfg, original, ds, exceptions), b)
  {
    var t := Passing(cfg, original, ds, exceptions);
    PassingMembers(cfg, original, ds, exceptions);
    AcceptedDisjoint(t);
    BestSameClaim(t, a, b);
    var es, i := BestToFront(cfg, original, ds, exceptions, a);
    var fs, j := BestToFront(cfg, original, ds, exceptions, b);
    var out := Winners(Clusters(t));
    assert out[i] == Boost(t, a) && out[j] == Boost(t, b);
    assert SpanOf(a).start < SpanOf(a).end;
    OnePerSpan(out, i, j);
  }

  lemma OnePerSpan(out: seq<Detection>, i: nat, j: nat)
    requires Disjoint(out) && i < |out| && j < |out|
    requires out[i].start == out[j].start && out[i].end == out[j].end && out[i].start < out[i].end
    ensures i == j
  {
  }

  /** In particular when no component has two different best detections. */
  lemma OneBestOrderFree(cfg: MergeConfig, original: string, ds: seq<Detection>, exceptions: seq<ExceptionEntry>)
    requires var t := Passing(cfg, original, ds, exceptions);
      forall a, b :: Best(t, a) && Best(t, b) && Connected(t, a, b, SpanOf) ==> a == b
    ensures OrderDecidesNothing(cfg, original, ds, exceptions)
  {
    OrderFreeExactly(cfg, original, ds, exceptions);
  }

  /** One span that the contextual detector claims as two types: the first claim is accepted. */
  lemma OrderDecidesType()
    ensures var a, b := Seen(0, 3, 0.90, "contextual"), Seen(0, 3, 0.90, "contextual").(entityType := "person");
      Winners(Clusters([a, b])) == [a] && Winners(Clusters([b, a])) == [b] && a.entityType != b.entityType
  {
    var a, b := Seen(0, 3, 0.90, "contextual"), Seen(0, 3, 0.90, "contextual").(entityType := "person");
    FirstOfTwo(a, b);
    FirstOfTwo(b, a);
  }

  lemma FirstOfTwo(a: Detection, b: Detection)
    requires SameVerdict(a, b) && a.detector == b.detector && a.start < a.end
    ensures Winners(Clusters([a, b])) == [a]
  {
    var t := [a, b];
    SortOfSorted(t, StartLe);
    assert t[1..] == [b] && [b][1..] == [];
    assert SweepFrom([a] + [b], Max(a.end, b.end), [], SpanOf) == [[a] + [b]];
    assert SweepFrom([a], a.end, [b], SpanOf) == [[a] + [b]];
    assert [a] + [b] == t && Winners([t]) == [PickClusterWinner(t)];
    SortOfSorted(t, RankLe);
  }
}
