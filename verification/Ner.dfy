/** Named-entity spans: union of overlapping ones, and grouping of labelled tokens into spans. */
module Ner {
  import opened Sequences
  import opened Intervals
  import opened Text

  datatype NerSpan = NerSpan(start: int, end: int, text: string, entityType: string)

  function SpanOfNer(s: NerSpan): Span {
    Span(s.start, s.end)
  }

  /** The sort key `(start, -end)`. */
  predicate StartLe(a: NerSpan, b: NerSpan) {
    SpanLe(SpanOfNer(a), SpanOfNer(b))
  }

  /** A non-empty stretch of the source, as the detector's patterns produce them. */
  predicate Sourced(src: string, s: NerSpan) {
    0 <= s.start < s.end <= |src| && s.text == src[s.start..s.end]
  }

  /** `last` after meeting an overlapping span. */
  function Stitch(last: NerSpan, s: NerSpan): NerSpan {
    if s.end > last.end then
      NerSpan(last.start, s.end, last.text + Slice(s.text, last.end - s.start, |s.text|), last.entityType)
    else last
  }

  function MergeFrom(last: NerSpan, rest: seq<NerSpan>): seq<NerSpan>
    decreases |rest|
  {
    if rest == [] then [last]
    else if rest[0].start < last.end then MergeFrom(Stitch(last, rest[0]), rest[1..])
    else [last] + MergeFrom(rest[0], rest[1..])
  }

  function MergedSpans(spans: seq<NerSpan>): seq<NerSpan> {
    var s := StableSort(spans, StartLe);
    if s == [] then [] else MergeFrom(s[0], s[1..])
  }

  /** The final list when the loop stands at `out` with `rest` to go. */
  function Remaining(out: seq<NerSpan>, rest: seq<NerSpan>): seq<NerSpan>
    requires out != []
  {
    out[..|out| - 1] + MergeFrom(out[|out| - 1], rest)
  }

  lemma MergeFromStep(out: seq<NerSpan>, s: seq<NerSpan>, i: nat)
    requires i < |s| && out != []
    ensures var last := out[|out| - 1];
      Remaining(out, s[i..])
      == if s[i].start < last.end then Remaining(out[|out| - 1 := Stitch(last, s[i])], s[i + 1..])
         else Remaining(out + [s[i]], s[i + 1..])
  {
    assert s[i..][1..] == s[i + 1..];
    assert out == out[..|out| - 1] + [out[|out| - 1]];
  }

  method MergeOverlapping(spans: seq<NerSpan>) returns (out: seq<NerSpan>)
    ensures out == MergedSpans(spans)
  {
    SortPermutes(spans, StartLe);
    if |spans| == 0 {
      return [];
    }
    var s := StableSort(spans, StartLe);
    out := UnionSorted(s);
    assert Remaining([s[0]], s[1..]) == MergedSpans(spans);
  }

  method UnionSorted(s: seq<NerSpan>) returns (out: seq<NerSpan>)
    requires s != []
    ensures out == Remaining([s[0]], s[1..])
  {
    out := [s[0]];
    for i := 1 to |s|
      invariant out != [] && Remaining(out, s[i..]) == Remaining([s[0]], s[1..])
    {
      var last := out[|out| - 1];
      MergeFromStep(out, s, i);
      if s[i].start < last.end {
        if s[i].end > last.end {
          out := out[|out| - 1 :=
            NerSpan(last.start, s[i].end, last.text + Slice(s[i].text, last.end - s[i].start, |s[i].text|),
              last.entityType)];
        }
        continue;
      }
      out := out + [s[i]];
    }
  }

  // ----- What the union is -----

  predicate Inside(p: int, s: NerSpan) { s.start <= p < s.end }

  /** Some span of the list contains position p. */
  ghost predicate CoveredBy(spans: seq<NerSpan>, p: int) {
    exists s :: s in spans && Inside(p, s)
  }

  /** o stands for the whole group: same first character and type, same positions, its own slice of the source. */
  ghost predicate HullOf(src: string, o: NerSpan, group: seq<NerSpan>) {
    && group != [] && o.start == group[0].start && o.entityType == group[0].entityType
    && Sourced(src, o) && IsEnd(group, o.end, SpanOfNer)
    && (forall p :: Inside(p, o) <==> CoveredBy(group, p))
  }

  ghost predicate AllSourced(src: string, spans: seq<NerSpan>) {
    forall s :: s in spans ==> Sourced(src, s)
  }

  lemma StitchSourced(src: string, last: NerSpan, s: NerSpan)
    requires Sourced(src, last) && Sourced(src, s) && last.start <= s.start < last.end
    ensures Sourced(src, Stitch(last, s))
    ensures forall p :: Inside(p, Stitch(last, s)) <==> Inside(p, last) || Inside(p, s)
  {
    if s.end > last.end {
      assert Slice(s.text, last.end - s.start, |s.text|) == src[last.end..s.end];
      assert src[last.start..s.end] == src[last.start..last.end] + src[last.end..s.end];
    }
  }

  lemma HullExtends(src: string, last: NerSpan, current: seq<NerSpan>, s: NerSpan)
    requires HullOf(src, last, current) && Sourced(src, s) && last.start <= s.start < last.end
    ensures HullOf(src, Stitch(last, s), current + [s])
    ensures Stitch(last, s).end == Max(last.end, s.end)
  {
    StitchSourced(src, last, s);
    ExtendEnd(current, last.end, s, SpanOfNer);
    forall p ensures Inside(p, Stitch(last, s)) <==> CoveredBy(current + [s], p) {
      if CoveredBy(current, p) {
        var x :| x in current && Inside(p, x);
        assert x in current + [s];
      }
      if Inside(p, s) { assert s in current + [s]; }
      assert CoveredBy(current + [s], p) ==> CoveredBy(current, p) || Inside(p, s);
    }
  }

  lemma HullOfOne(src: string, s: NerSpan)
    requires Sourced(src, s)
    ensures HullOf(src, s, [s])
  {
    assert s in [s];
    forall p ensures Inside(p, s) <==> CoveredBy([s], p) {
      if Inside(p, s) { assert s in [s]; }
    }
  }

  ghost predicate HullsOf(src: string, out: seq<NerSpan>, groups: seq<seq<NerSpan>>) {
    |out| == |groups| && forall k :: 0 <= k < |out| ==> HullOf(src, out[k], groups[k])
  }

  lemma HullsCons(src: string, o: NerSpan, g: seq<NerSpan>, out: seq<NerSpan>, groups: seq<seq<NerSpan>>)
    requires HullOf(src, o, g) && HullsOf(src, out, groups)
    ensures HullsOf(src, [o] + out, [g] + groups)
  {
  }

  lemma SortedRest(src: string, rest: seq<NerSpan>)
    requires rest != [] && AllSourced(src, rest) && SortedByStart(rest, SpanOfNer)
    ensures Sourced(src, rest[0]) && AllSourced(src, rest[1..]) && SortedByStart(rest[1..], SpanOfNer)
    ensures |rest| > 1 ==> rest[0].start <= rest[1..][0].start
  {
    assert rest[0] in rest;
    assert |rest| > 1 ==> SpanOfNer(rest[0]).start <= SpanOfNer(rest[1]).start;
  }

  /** The union's spans are the hulls of the sweep's groups, one for one. */
  lemma {:induction false} MergeFromHulls(src: string, last: NerSpan, current: seq<NerSpan>, rest: seq<NerSpan>)
    requires HullOf(src, last, current) && AllSourced(src, rest)
    requires SortedByStart(rest, SpanOfNer) && (rest != [] ==> last.start <= rest[0].start)
    ensures HullsOf(src, MergeFrom(last, rest), SweepFrom(current, last.end, rest, SpanOfNer))
    decreases |rest|
  {
    if rest == [] {
    } else {
      var s, tail := rest[0], rest[1..];
      SortedRest(src, rest);
      if s.start < last.end {
        HullExtends(src, last, current, s);
        MergeFromHulls(src, Stitch(last, s), current + [s], tail);
      } else {
        HullOfOne(src, s);
        MergeFromHulls(src, s, [s], tail);
        HullsCons(src, last, current, MergeFrom(s, tail), SweepFrom([s], s.end, tail, SpanOfNer));
      }
    }
  }

  /** The spans in order, their groups in the overlap graph, and one hull for each group. */
  ghost predicate Hulls(
      src: string, spans: seq<NerSpan>, s: seq<NerSpan>, groups: seq<seq<NerSpan>>, out: seq<NerSpan>) {
    && AllSourced(src, s) && (forall x :: x in s <==> x in spans)
    && (forall x :: x in s <==> x in Flatten(groups)) && Separated(groups, SpanOfNer)
    && HullsOf(src, out, groups)
  }

  function Groups(spans: seq<NerSpan>): seq<seq<NerSpan>> {
    Sweep(StableSort(spans, StartLe), SpanOfNer)
  }

  lemma SortedSpans(src: string, spans: seq<NerSpan>)
    requires AllSourced(src, spans)
    ensures var s := StableSort(spans, StartLe);
      && AllSourced(src, s) && (forall x :: x in s <==> x in spans)
      && SortedByStart(s, SpanOfNer) && NonEmptySpans(s, SpanOfNer)
  {
    var s := StableSort(spans, StartLe);
    SortKeepsElements(spans, StartLe);
    SortSorts(spans, StartLe);
    assert forall i, j :: 0 <= i < j < |s| ==> StartLe(s[i], s[j]);
  }

  lemma MergedHullsOf(src: string, spans: seq<NerSpan>)
    requires AllSourced(src, spans)
    ensures HullsOf(src, MergedSpans(spans), Groups(spans))
  {
    var s := StableSort(spans, StartLe);
    SortedSpans(src, spans);
    if s != [] {
      SortedRest(src, s);
      HullOfOne(src, s[0]);
      MergeFromHulls(src, s[0], [s[0]], s[1..]);
    }
  }

  lemma MergedHulls(src: string, spans: seq<NerSpan>)
    requires AllSourced(src, spans)
    ensures SortedByStart(StableSort(spans, StartLe), SpanOfNer) && NonEmptySpans(StableSort(spans, StartLe), SpanOfNer)
    ensures Hulls(src, spans, StableSort(spans, StartLe), Groups(spans), MergedSpans(spans))
  {
    SortedSpans(src, spans);
    MergedHullsOf(src, spans);
    SweepCorrect(StableSort(spans, StartLe), SpanOfNer);
  }

  lemma HullsDisjoint(
      src: string, spans: seq<NerSpan>, s: seq<NerSpan>, groups: seq<seq<NerSpan>>, out: seq<NerSpan>, i: nat, j: nat)
    requires Hulls(src, spans, s, groups, out) && i < j < |out|
    ensures out[i].end <= out[j].start
  {
    assert HullOf(src, out[i], groups[i]) && HullOf(src, out[j], groups[j]);
    var x :| x in groups[i] && SpanOfNer(x).end == out[i].end;
    assert groups[j][0] in groups[j];
    assert SpanOfNer(x).end <= SpanOfNer(groups[j][0]).start;
  }

  /** The result is in text order and disjoint, and every span carries exactly its slice of the source. */
  lemma MergedDisjoint(src: string, spans: seq<NerSpan>)
    requires AllSourced(src, spans)
    ensures AllSourced(src, MergedSpans(spans))
    ensures var out := MergedSpans(spans); forall i, j :: 0 <= i < j < |out| ==> out[i].end <= out[j].start
  {
    var out := MergedSpans(spans);
    MergedHulls(src, spans);
    forall i, j | 0 <= i < j < |out| ensures out[i].end <= out[j].start {
      HullsDisjoint(src, spans, StableSort(spans, StartLe), Groups(spans), out, i, j);
    }
    forall o | o in out ensures Sourced(src, o) {
      var k :| 0 <= k < |out| && out[k] == o;
      assert HullOf(src, out[k], Groups(spans)[k]);
    }
  }

  lemma HullsCoverSame(src: string, spans: seq<NerSpan>, groups: seq<seq<NerSpan>>, out: seq<NerSpan>, p: int)
    requires HullsOf(src, out, groups) && forall x :: x in spans <==> x in Flatten(groups)
    ensures CoveredBy(out, p) <==> CoveredBy(spans, p)
  {
    if o :| o in out && Inside(p, o) {
      var k :| 0 <= k < |out| && out[k] == o;
      assert HullOf(src, out[k], groups[k]);
      var x :| x in groups[k] && Inside(p, x);
      FlattenMember(groups, x);
      assert x in spans;
    }
    if x :| x in spans && Inside(p, x) {
      FlattenMember(groups, x);
      var k :| 0 <= k < |groups| && x in groups[k];
      assert HullOf(src, out[k], groups[k]);
      assert CoveredBy(groups[k], p) && out[k] in out;
    }
  }

  /** The result covers exactly the characters the input covered. */
  lemma MergedCoversSame(src: string, spans: seq<NerSpan>, p: int)
    requires AllSourced(src, spans)
    ensures CoveredBy(MergedSpans(spans), p) <==> CoveredBy(spans, p)
  {
    MergedHulls(src, spans);
    HullsCoverSame(src, spans, Groups(spans), MergedSpans(spans), p);
  }

  predicate Within(a: NerSpan, o: NerSpan) { o.start <= a.start && a.end <= o.end }

  lemma GroupFits(src: string, o: NerSpan, group: seq<NerSpan>, a: NerSpan)
    requires HullOf(src, o, group) && a in group && Sourced(src, a)
    ensures Within(a, o)
  {
    assert Inside(a.start, a);
    assert CoveredBy(group, a.start);
    assert SpanOfNer(a).end <= o.end;
  }

  lemma FitsGroup(src: string, groups: seq<seq<NerSpan>>, o: NerSpan, k: nat, m: nat, a: NerSpan)
    requires Separated(groups, SpanOfNer) && k < |groups| && m < |groups| && HullOf(src, o, groups[k])
    requires a in groups[m] && Sourced(src, a) && Within(a, o)
    ensures k == m
  {
    assert Inside(a.start, o);
    var x :| x in groups[k] && Inside(a.start, x);
    assert m < k ==> SpanOfNer(a).end <= SpanOfNer(x).start;
    assert k < m ==> SpanOfNer(x).end <= SpanOfNer(a).start;
  }

  /** The members of the k-th group are exactly the spans that fit into the k-th hull. */
  lemma GroupIsWithin(src: string, spans: seq<NerSpan>, s: seq<NerSpan>, groups: seq<seq<NerSpan>>,
      out: seq<NerSpan>, k: nat, a: NerSpan)
    requires Hulls(src, spans, s, groups, out) && k < |out| && a in s
    ensures a in groups[k] <==> Within(a, out[k])
  {
    FlattenMember(groups, a);
    var m :| 0 <= m < |groups| && a in groups[m];
    assert HullOf(src, out[k], groups[k]) && Sourced(src, a);
    if a in groups[k] { GroupFits(src, out[k], groups[k], a); }
    if Within(a, out[k]) { FitsGroup(src, groups, out[k], k, m, a); }
  }

  /** Two spans end up in one span of the result exactly when a chain of overlapping spans joins them. */
  lemma MergedByComponent(src: string, spans: seq<NerSpan>, a: NerSpan, b: NerSpan)
    requires AllSourced(src, spans) && a in spans && b in spans
    ensures (exists o :: o in MergedSpans(spans) && Within(a, o) && Within(b, o)) <==> Connected(spans, a, b, SpanOfNer)
  {
    var s, groups, out := StableSort(spans, StartLe), Groups(spans), MergedSpans(spans);
    MergedHulls(src, spans);
    SweepGroupsAreComponents(s, SpanOfNer, a, b);
    if Connected(spans, a, b, SpanOfNer) { ConnectedSameItems(spans, s, a, b, SpanOfNer); }
    if Connected(s, a, b, SpanOfNer) { ConnectedSameItems(s, spans, a, b, SpanOfNer); }
    SharedHullIsSharedGroup(src, spans, s, groups, out, a, b);
  }

  lemma SharedHullIsSharedGroup(src: string, spans: seq<NerSpan>, s: seq<NerSpan>, groups: seq<seq<NerSpan>>,
      out: seq<NerSpan>, a: NerSpan, b: NerSpan)
    requires Hulls(src, spans, s, groups, out) && a in s && b in s
    ensures (exists o :: o in out && Within(a, o) && Within(b, o))
       <==> (exists k :: 0 <= k < |groups| && a in groups[k] && b in groups[k])
  {
    if o :| o in out && Within(a, o) && Within(b, o) {
      var k :| 0 <= k < |out| && out[k] == o;
      GroupIsWithin(src, spans, s, groups, out, k, a);
      GroupIsWithin(src, spans, s, groups, out, k, b);
    }
    if k :| 0 <= k < |groups| && a in groups[k] && b in groups[k] {
      GroupIsWithin(src, spans, s, groups, out, k, a);
      GroupIsWithin(src, spans, s, groups, out, k, b);
      assert out[k] in out;
    }
  }

  lemma GroupInOrder(spans: seq<NerSpan>, s: seq<NerSpan>, groups: seq<seq<NerSpan>>, k: nat, b: NerSpan)
    requires s == StableSort(spans, StartLe) && Flatten(groups) == s && k < |groups| && b in groups[k]
    ensures StartLe(groups[k][0], b)
  {
    assert TotalPreorder(StartLe);
    SortSorts(spans, StartLe);
    var base := FlattenSlice(groups, k);
    var j :| 0 <= j < |groups[k]| && groups[k][j] == b;
    assert s[base..base + |groups[k]|][0] == s[base] && s[base..base + |groups[k]|][j] == s[base + j];
    assert j > 0 ==> StartLe(s[base], s[base + j]);
  }

  /** A span that starts where a group starts belongs to it. */
  lemma StartsInGroup(groups: seq<seq<NerSpan>>, k: nat, m: nat, first: NerSpan, b: NerSpan)
    requires Separated(groups, SpanOfNer) && k < |groups| && m < |groups| && first in groups[k] && b in groups[m]
    requires b.start == first.start && b.start < b.end && first.start < first.end
    ensures k == m
  {
    assert m < k ==> SpanOfNer(b).end <= SpanOfNer(first).start;
    assert k < m ==> SpanOfNer(first).end <= SpanOfNer(b).start;
  }

  /** Of the spans that start where a group does, its first is the longest. */
  lemma FirstIsLongest(spans: seq<NerSpan>, groups: seq<seq<NerSpan>>, k: nat, m: nat, b: NerSpan)
    requires Flatten(groups) == StableSort(spans, StartLe) && Separated(groups, SpanOfNer)
    requires k < |groups| && groups[k] != [] && m < |groups| && b in groups[m]
    requires b.start == groups[k][0].start && b.start < b.end && groups[k][0].start < groups[k][0].end
    ensures b.end <= groups[k][0].end
  {
    StartsInGroup(groups, k, m, groups[k][0], b);
    GroupInOrder(spans, StableSort(spans, StartLe), groups, k, b);
  }

  /** The group a span of the union stands for, and its first member. */
  lemma GroupOf(src: string, spans: seq<NerSpan>, o: NerSpan) returns (k: nat)
    requires AllSourced(src, spans) && o in MergedSpans(spans)
    ensures var groups := Groups(spans);
      && Flatten(groups) == StableSort(spans, StartLe) && Separated(groups, SpanOfNer)
      && k < |groups| && groups[k] != [] && groups[k][0] in spans
      && groups[k][0].start == o.start && groups[k][0].entityType == o.entityType
  {
    var groups, out := Groups(spans), MergedSpans(spans);
    assert HullsOf(src, out, groups) by {
      MergedHullsOf(src, spans);
    }
    GroupsPartition(src, spans);
    k :| 0 <= k < |out| && out[k] == o;
    HullFirst(src, out, groups, k);
    assert groups[k][0] in spans by {
      InFlatten(groups, k);
      SortKeepsElements(spans, StartLe);
    }
  }

  lemma GroupsPartition(src: string, spans: seq<NerSpan>)
    requires AllSourced(src, spans)
    ensures Flatten(Groups(spans)) == StableSort(spans, StartLe) && Separated(Groups(spans), SpanOfNer)
  {
    SortedSpans(src, spans);
    SweepCorrect(StableSort(spans, StartLe), SpanOfNer);
  }

  lemma HullFirst(src: string, out: seq<NerSpan>, groups: seq<seq<NerSpan>>, k: nat)
    requires HullsOf(src, out, groups) && k < |out|
    ensures k < |groups| && groups[k] != []
    ensures groups[k][0].start == out[k].start && groups[k][0].entityType == out[k].entityType
  {
    assert HullOf(src, out[k], groups[k]);
  }

  lemma InFlatten(groups: seq<seq<NerSpan>>, k: nat)
    requires k < |groups| && groups[k] != []
    ensures groups[k][0] in Flatten(groups)
  {
    FlattenMembers(groups);
    assert groups[k][0] in groups[k];
  }

  lemma MemberGroup(spans: seq<NerSpan>, groups: seq<seq<NerSpan>>, b: NerSpan) returns (m: nat)
    requires Flatten(groups) == StableSort(spans, StartLe) && b in spans
    ensures m < |groups| && b in groups[m]
  {
    SortKeepsElements(spans, StartLe);
    FlattenMembers(groups);
    m :| 0 <= m < |groups| && b in groups[m];
  }

  /** Each span of the union takes its type from the longest of the spans that start where it starts. */
  lemma LongestGivesType(src: string, spans: seq<NerSpan>, o: NerSpan) returns (first: NerSpan)
    requires AllSourced(src, spans) && o in MergedSpans(spans)
    ensures first in spans && first.start == o.start && first.entityType == o.entityType
    ensures forall b :: b in spans && b.start == o.start ==> b.end <= first.end
  {
    var k := GroupOf(src, spans, o);
    first := Groups(spans)[k][0];
    forall b | b in spans && b.start == o.start ensures b.end <= first.end {
      var m := MemberGroup(spans, Groups(spans), b);
      assert Sourced(src, b) && Sourced(src, first);
      FirstIsLongest(spans, Groups(spans), k, m, b);
    }
  }
}
