/** Half-open spans, the sweep that groups sorted spans, and the overlap graph it is measured against. */
module Intervals {
  import opened Sequences

  /** Characters start, start+1, ..., end-1 of a text. */
  datatype Span = Span(start: int, end: int)

  predicate Overlap(a: Span, b: Span) {
    a.start < b.end && b.start < a.end
  }

  /** The sort key `(start, -end)`. */
  predicate SpanLe(a: Span, b: Span) {
    a.start < b.start || (a.start == b.start && a.end >= b.end)
  }

  /** Groups a list sorted by start: an item joins the current group when it starts before the group's end. */
  function SweepFrom<T>(current: seq<T>, currentEnd: int, rest: seq<T>, span: T -> Span): seq<seq<T>>
    decreases |rest|
  {
    if rest == [] then [current]
    else if span(rest[0]).start < currentEnd then
      SweepFrom(current + [rest[0]], Max(currentEnd, span(rest[0]).end), rest[1..], span)
    else
      [current] + SweepFrom([rest[0]], span(rest[0]).end, rest[1..], span)
  }

  function Sweep<T>(s: seq<T>, span: T -> Span): seq<seq<T>> {
    if s == [] then [] else SweepFrom([s[0]], span(s[0]).end, s[1..], span)
  }

  predicate NonEmptyGroups<T>(groups: seq<seq<T>>) {
    forall i :: 0 <= i < |groups| ==> groups[i] != []
  }

  lemma {:induction false} SweepFromNonEmpty<T>(current: seq<T>, currentEnd: int, rest: seq<T>, span: T -> Span)
    requires current != []
    ensures NonEmptyGroups(SweepFrom(current, currentEnd, rest, span))
    decreases |rest|
  {
    if rest == [] {
    } else {
      if span(rest[0]).start < currentEnd {
        SweepFromNonEmpty(current + [rest[0]], Max(currentEnd, span(rest[0]).end), rest[1..], span);
      } else {
        SweepFromNonEmpty([rest[0]], span(rest[0]).end, rest[1..], span);
      }
    }
  }

  lemma SweepNonEmpty<T>(s: seq<T>, span: T -> Span)
    ensures NonEmptyGroups(Sweep(s, span))
  {
    if s != [] {
      SweepFromNonEmpty([s[0]], span(s[0]).end, s[1..], span);
    }
  }

  /** One iteration of the sweep's loop. */
  lemma SweepStep<T>(done: seq<seq<T>>, current: seq<T>, currentEnd: int, s: seq<T>, i: nat, span: T -> Span)
    requires i < |s|
    ensures done + SweepFrom(current, currentEnd, s[i..], span)
         == if span(s[i]).start < currentEnd
            then done + SweepFrom(current + [s[i]], Max(currentEnd, span(s[i]).end), s[i + 1..], span)
            else (done + [current]) + SweepFrom([s[i]], span(s[i]).end, s[i + 1..], span)
  {
    assert s[i..][1..] == s[i + 1..];
  }

  function Flatten<T>(groups: seq<seq<T>>): seq<T> {
    if groups == [] then [] else groups[0] + Flatten(groups[1..])
  }

  ghost predicate LinkedAt<T>(group: seq<T>, k: nat, span: T -> Span)
    requires k < |group|
  {
    exists j :: 0 <= j < k && Overlap(span(group[j]), span(group[k]))
  }

  /** Every item after the first overlaps one before it. */
  ghost predicate Linked<T>(group: seq<T>, span: T -> Span) {
    forall k :: 0 < k < |group| ==> LinkedAt(group, k, span)
  }

  /** Items of an earlier group end no later than items of a later group start. */
  ghost predicate Separated<T>(groups: seq<seq<T>>, span: T -> Span) {
    forall i, j, a, b :: 0 <= i < j < |groups| && a in groups[i] && b in groups[j] ==> span(a).end <= span(b).start
  }

  ghost predicate SortedByStart<T>(s: seq<T>, span: T -> Span) {
    forall i, j :: 0 <= i < j < |s| ==> span(s[i]).start <= span(s[j]).start
  }

  ghost predicate NonEmptySpans<T>(s: seq<T>, span: T -> Span) {
    forall x :: x in s ==> span(x).start < span(x).end
  }

  /** `end` is the largest end in the group. */
  ghost predicate IsEnd<T>(group: seq<T>, end: int, span: T -> Span) {
    && (forall x :: x in group ==> span(x).end <= end)
    && (exists x :: x in group && span(x).end == end)
  }

  ghost predicate SweepInput<T>(current: seq<T>, currentEnd: int, rest: seq<T>, span: T -> Span) {
    && current != [] && SortedByStart(current + rest, span) && NonEmptySpans(current + rest, span)
    && Linked(current, span) && IsEnd(current, currentEnd, span)
  }

  lemma ExtendLinked<T>(current: seq<T>, currentEnd: int, x: T, span: T -> Span)
    requires Linked(current, span) && IsEnd(current, currentEnd, span)
    requires forall y :: y in current ==> span(y).start <= span(x).start
    requires span(x).start < currentEnd && span(x).start < span(x).end
    ensures Linked(current + [x], span)
  {
    var next := current + [x];
    forall k | 0 < k < |next| ensures LinkedAt(next, k, span) {
      if k < |current| {
        assert LinkedAt(current, k, span);
        var j :| 0 <= j < k && Overlap(span(current[j]), span(current[k]));
        assert next[j] == current[j] && next[k] == current[k];
      } else {
        var w :| w in current && span(w).end == currentEnd;
        var j :| 0 <= j < |current| && current[j] == w;
        assert next[j] == w && next[k] == x && Overlap(span(w), span(x));
      }
    }
  }

  lemma ExtendEnd<T>(current: seq<T>, currentEnd: int, x: T, span: T -> Span)
    requires IsEnd(current, currentEnd, span)
    ensures IsEnd(current + [x], Max(currentEnd, span(x).end), span)
  {
    var w :| w in current && span(w).end == currentEnd;
    assert w in current + [x] && x in current + [x];
  }

  lemma ExtendGroup<T>(current: seq<T>, currentEnd: int, x: T, rest: seq<T>, span: T -> Span)
    requires SweepInput(current, currentEnd, [x] + rest, span)
    requires span(x).start < currentEnd
    ensures SweepInput(current + [x], Max(currentEnd, span(x).end), rest, span)
  {
    var all := current + ([x] + rest);
    assert (current + [x]) + rest == all;
    assert all[|current|] == x;
    forall y | y in current ensures span(y).start <= span(x).start {
      var k :| 0 <= k < |current| && current[k] == y;
      assert all[k] == y;
    }
    ExtendLinked(current, currentEnd, x, span);
    ExtendEnd(current, currentEnd, x, span);
  }

  lemma NewGroup<T>(current: seq<T>, currentEnd: int, x: T, rest: seq<T>, span: T -> Span)
    requires SweepInput(current, currentEnd, [x] + rest, span)
    requires span(x).start >= currentEnd
    ensures SweepInput([x], span(x).end, rest, span)
    ensures forall a, b :: a in current && b in [x] + rest ==> span(a).end <= span(b).start
  {
    var all := current + ([x] + rest);
    assert all[|current|..] == [x] + rest;
    forall b | b in [x] + rest ensures span(x).start <= span(b).start {
      var k :| 0 <= k < |[x] + rest| && ([x] + rest)[k] == b;
      assert all[|current|] == x && all[|current| + k] == b;
    }
    assert x in [x];
  }

  lemma SeparatedCons<T>(first: seq<T>, groups: seq<seq<T>>, span: T -> Span)
    requires Separated(groups, span)
    requires forall a, b :: a in first && b in Flatten(groups) ==> span(a).end <= span(b).start
    ensures Separated([first] + groups, span)
  {
    FlattenMembers(groups);
    var all := [first] + groups;
    forall i, j, a, b | 0 <= i < j < |all| && a in all[i] && b in all[j] ensures span(a).end <= span(b).start {
      assert all[j] == groups[j - 1];
      if i > 0 { assert all[i] == groups[i - 1]; }
    }
  }

  /** The sweep keeps every item in order, links each group, and separates the groups. */
  lemma {:induction false} SweepFromCorrect<T>(current: seq<T>, currentEnd: int, rest: seq<T>, span: T -> Span)
    requires SweepInput(current, currentEnd, rest, span)
    ensures Flatten(SweepFrom(current, currentEnd, rest, span)) == current + rest
    ensures Separated(SweepFrom(current, currentEnd, rest, span), span)
    ensures forall g :: g in SweepFrom(current, currentEnd, rest, span) ==> Linked(g, span)
    decreases |rest|
  {
    if rest == [] {
      assert Flatten([current]) == current + Flatten([]);
    } else {
      var x, tail := rest[0], rest[1..];
      assert rest == [x] + tail;
      if span(x).start < currentEnd {
        ExtendGroup(current, currentEnd, x, tail, span);
        SweepFromCorrect(current + [x], Max(currentEnd, span(x).end), tail, span);
        assert (current + [x]) + tail == current + rest;
      } else {
        NewGroup(current, currentEnd, x, tail, span);
        SweepFromCorrect([x], span(x).end, tail, span);
        SeparatedCons(current, SweepFrom([x], span(x).end, tail, span), span);
      }
    }
  }

  /** Each group is a slice of the flattened list. */
  lemma {:induction false} FlattenSlice<T>(groups: seq<seq<T>>, k: nat) returns (base: nat)
    requires k < |groups|
    ensures base + |groups[k]| <= |Flatten(groups)|
    ensures Flatten(groups)[base..base + |groups[k]|] == groups[k]
  {
    if k == 0 {
      base := 0;
    } else {
      var b := FlattenSlice(groups[1..], k - 1);
      base := |groups[0]| + b;
    }
  }

  /** x is in one of the groups. */
  ghost predicate InSome<T>(groups: seq<seq<T>>, x: T) {
    exists i :: 0 <= i < |groups| && x in groups[i]
  }

  lemma {:induction false} FlattenMember<T>(groups: seq<seq<T>>, x: T)
    ensures x in Flatten(groups) <==> InSome(groups, x)
  {
    if groups == [] {
    } else {
      FlattenMember(groups[1..], x);
      if i :| 0 <= i < |groups[1..]| && x in groups[1..][i] {
        assert x in groups[i + 1];
      }
      if i :| 0 < i < |groups| && x in groups[i] {
        assert x in groups[1..][i - 1];
      }
    }
  }

  lemma FlattenMembers<T>(groups: seq<seq<T>>)
    ensures forall i, x :: 0 <= i < |groups| && x in groups[i] ==> x in Flatten(groups)
    ensures forall x :: x in Flatten(groups) ==> exists i :: 0 <= i < |groups| && x in groups[i]
  {
    forall x ensures x in Flatten(groups) <==> InSome(groups, x) {
      FlattenMember(groups, x);
    }
    forall i, x | 0 <= i < |groups| && x in groups[i] ensures x in Flatten(groups) {
      assert InSome(groups, x);
    }
    forall x | x in Flatten(groups) ensures exists i :: 0 <= i < |groups| && x in groups[i] {
      assert InSome(groups, x);
    }
  }

  lemma SweepCorrect<T>(s: seq<T>, span: T -> Span)
    requires SortedByStart(s, span) && NonEmptySpans(s, span)
    ensures Flatten(Sweep(s, span)) == s
    ensures Separated(Sweep(s, span), span)
    ensures forall g :: g in Sweep(s, span) ==> Linked(g, span)
  {
    if s != [] {
      assert [s[0]] + s[1..] == s;
      assert s[0] in [s[0]];
      SweepFromCorrect([s[0]], span(s[0]).end, s[1..], span);
    }
  }

  // ----- The overlap graph -----

  /** A walk through items of `items` whose neighbours overlap. */
  ghost predicate IsPath<T>(items: seq<T>, p: seq<T>, a: T, b: T, span: T -> Span) {
    && p != [] && p[0] == a && p[|p| - 1] == b
    && (forall x :: x in p ==> x in items)
    && (forall k :: 0 <= k < |p| - 1 ==> Overlap(span(p[k]), span(p[k + 1])))
  }

  /** a and b lie in one connected component of the overlap graph on `items`. */
  ghost predicate Connected<T(!new)>(items: seq<T>, a: T, b: T, span: T -> Span) {
    exists p :: IsPath(items, p, a, b, span)
  }

  lemma ConnectedStep<T(!new)>(items: seq<T>, a: T, b: T, c: T, span: T -> Span)
    requires Connected(items, a, b, span) && c in items && Overlap(span(b), span(c))
    ensures Connected(items, a, c, span)
  {
    var p :| IsPath(items, p, a, b, span);
    assert IsPath(items, p + [c], a, c, span);
  }

  lemma {:induction false} ConnectedTransitive<T(!new)>(items: seq<T>, a: T, b: T, c: T, span: T -> Span, q: seq<T>)
    requires Connected(items, a, b, span) && IsPath(items, q, b, c, span)
    ensures Connected(items, a, c, span)
    decreases |q|
  {
    if |q| == 1 {
    } else {
      var d := q[|q| - 2];
      assert IsPath(items, q[..|q| - 1], b, d, span);
      ConnectedTransitive(items, a, b, d, span, q[..|q| - 1]);
      assert Overlap(span(d), span(q[|q| - 2 + 1]));
      ConnectedStep(items, a, d, c, span);
    }
  }

  lemma ConnectedSymmetric<T(!new)>(items: seq<T>, a: T, b: T, span: T -> Span)
    requires Connected(items, a, b, span)
    ensures Connected(items, b, a, span)
  {
    var p :| IsPath(items, p, a, b, span);
    var n := |p|;
    var q := seq(n, i requires 0 <= i < n => p[n - 1 - i]);
    forall k | 0 <= k < n - 1 ensures Overlap(span(q[k]), span(q[k + 1])) {
      var m := n - 2 - k;
      assert Overlap(span(p[m]), span(p[m + 1]));
    }
    assert IsPath(items, q, b, a, span);
  }

  /** Connectivity depends on which items there are, not on their order or number. */
  lemma ConnectedSameItems<T(!new)>(items: seq<T>, other: seq<T>, a: T, b: T, span: T -> Span)
    requires forall x :: x in items ==> x in other
    requires Connected(items, a, b, span)
    ensures Connected(other, a, b, span)
  {
    var p :| IsPath(items, p, a, b, span);
    assert IsPath(other, p, a, b, span);
  }

  lemma {:induction false} LinkedToFirst<T(!new)>(items: seq<T>, group: seq<T>, k: nat, span: T -> Span)
    requires NonEmptySpans(items, span) && Linked(group, span) && k < |group|
    requires forall x :: x in group ==> x in items
    ensures Connected(items, group[0], group[k], span)
  {
    if k == 0 {
      assert IsPath(items, [group[0]], group[0], group[0], span);
    } else {
      assert LinkedAt(group, k, span);
      var j :| 0 <= j < k && Overlap(span(group[j]), span(group[k]));
      LinkedToFirst(items, group, j, span);
      ConnectedStep(items, group[0], group[j], group[k], span);
    }
  }

  /** One group of a separated grouping contains every walk that starts in it. */
  lemma {:induction false} PathStaysInGroup<T>(
      items: seq<T>, groups: seq<seq<T>>, i: nat, p: seq<T>, a: T, b: T, span: T -> Span)
    requires Separated(groups, span) && i < |groups| && a in groups[i]
    requires forall x :: x in items ==> x in Flatten(groups)
    requires IsPath(items, p, a, b, span)
    ensures b in groups[i]
    decreases |p|
  {
    if |p| == 1 {
    } else {
      var c := p[|p| - 2];
      assert IsPath(items, p[..|p| - 1], a, c, span);
      PathStaysInGroup(items, groups, i, p[..|p| - 1], a, c, span);
      assert Overlap(span(c), span(p[|p| - 2 + 1]));
      FlattenMembers(groups);
      assert b in p;
      var j :| 0 <= j < |groups| && b in groups[j];
    }
  }

  /** The groups of the sweep are exactly the connected components of the overlap graph. */
  lemma SweepGroupsAreComponents<T(!new)>(s: seq<T>, span: T -> Span, a: T, b: T)
    requires SortedByStart(s, span) && NonEmptySpans(s, span) && a in s && b in s
    ensures (exists i :: 0 <= i < |Sweep(s, span)| && a in Sweep(s, span)[i] && b in Sweep(s, span)[i])
       <==> Connected(s, a, b, span)
  {
    var groups := Sweep(s, span);
    SweepCorrect(s, span);
    FlattenMembers(groups);
    if i :| 0 <= i < |groups| && a in groups[i] && b in groups[i] {
      var g := groups[i];
      var m :| 0 <= m < |g| && g[m] == a;
      var n :| 0 <= n < |g| && g[n] == b;
      LinkedToFirst(s, g, m, span);
      LinkedToFirst(s, g, n, span);
      ConnectedSymmetric(s, g[0], a, span);
      var q :| IsPath(s, q, g[0], b, span);
      ConnectedTransitive(s, a, g[0], b, span, q);
    }
    if Connected(s, a, b, span) {
      var p :| IsPath(s, p, a, b, span);
      var i :| 0 <= i < |groups| && a in groups[i];
      PathStaysInGroup(s, groups, i, p, a, b, span);
    }
  }

  /** Spans that already follow one another form one group each. */
  lemma {:induction false} SweepOfDisjoint<T>(s: seq<T>, span: T -> Span)
    requires forall i :: 0 <= i < |s| - 1 ==> span(s[i]).end <= span(s[i + 1]).start
    ensures |Sweep(s, span)| == |s| && forall i :: 0 <= i < |s| ==> Sweep(s, span)[i] == [s[i]]
    decreases |s|
  {
    if |s| <= 1 {
    } else {
      assert span(s[0]).end <= span(s[0 + 1]).start;
      assert s[1..][0] == s[1];
      forall i | 0 <= i < |s[1..]| - 1 ensures span(s[1..][i]).end <= span(s[1..][i + 1]).start {
        assert span(s[i + 1]).end <= span(s[i + 1 + 1]).start;
      }
      SweepOfDisjoint(s[1..], span);
      assert Sweep(s, span) == [[s[0]]] + Sweep(s[1..], span);
    }
  }
}
