/** Where the splice puts things: gaps, holes, lengths, and how to get the original back from the pieces. */
module ForwardProperties {
  import opened Sequences
  import opened Text
  import opened Detections
  import opened Merge
  import opened MergeProperties
  import opened Components
  import opened SessionMap
  import opened Substitution

  /** What the splice relies on: valid detections of this text, each after the one before, from `cursor` on. */
  ghost predicate Spliceable(original: string, ds: seq<Detection>, cursor: int) {
    && 0 <= cursor <= |original|
    && (ds == [] || (ds[0].Valid() && SpanMatches(original, ds[0]) && cursor <= ds[0].start
                     && Spliceable(original, ds[1..], ds[0].end)))
  }

  lemma {:induction false} DisjointSpliceable(original: string, ds: seq<Detection>, cursor: int)
    requires 0 <= cursor <= |original| && Disjoint(ds) && (ds == [] || cursor <= ds[0].start)
    requires forall i :: 0 <= i < |ds| ==> ds[i].Valid() && SpanMatches(original, ds[i])
    ensures Spliceable(original, ds, cursor)
    decreases |ds|
  {
    if ds == [] {
    } else {
      DisjointSpliceable(original, ds[1..], ds[0].end);
    }
  }

  /** Merge output needs no re-sorting and no skipping. */
  lemma AcceptedSpliceable(cfg: MergeConfig, original: string, ds: seq<Detection>, exceptions: seq<ExceptionEntry>)
    requires forall d :: d in ds ==> d.Valid()
    ensures var a := Merged(cfg, original, ds, exceptions).accepted;
      Spliceable(original, a, 0) && StableSort(a, ByStart) == a
  {
    var a := Merged(cfg, original, ds, exceptions).accepted;
    AcceptedMatchText(cfg, original, ds, exceptions);
    AcceptedPassAgain(cfg, original, ds, exceptions);
    forall k | 0 <= k < |a| ensures a[k].Valid() {
      Dominance(cfg, original, ds, exceptions, k);
    }
    DisjointSpliceable(original, a, 0);
    forall i, j | 0 <= i < j < |a| ensures ByStart(a[i], a[j]) {
      assert a[i] in a && SpanOf(a[i]).start < SpanOf(a[i]).end;
    }
    SortOfSorted(a, ByStart);
  }

  function SyntheticOf(synth: Synthesizer, d: Detection): string {
    synth(d.entityType, d.text)
  }

  /** The skip branch is never taken: gaps and holes alternate, one hole for each detection, in order. */
  lemma {:induction false} SpliceShape(original: string, ds: seq<Detection>, cursor: int, synth: Synthesizer)
    requires Spliceable(original, ds, cursor)
    ensures var pieces := Splice(original, ds, cursor, synth);
      && |pieces| == 2 * |ds| + 1
      && (forall i :: 0 <= i < |ds| ==> pieces[2 * i + 1] == Hole(ds[i], SyntheticOf(synth, ds[i])))
      && (forall i :: 0 <= i <= |ds| ==> pieces[2 * i].Gap?)
    decreases |ds|
  {
    if ds == [] {
    } else {
      SpliceShape(original, ds[1..], ds[0].end, synth);
      var pieces, tail := Splice(original, ds, cursor, synth), Splice(original, ds[1..], ds[0].end, synth);
      assert pieces == [Gap(Slice(original, cursor, ds[0].start)), Hole(ds[0], SyntheticOf(synth, ds[0]))] + tail;
      forall i | 0 <= i < |ds| ensures pieces[2 * i + 1] == Hole(ds[i], SyntheticOf(synth, ds[i])) {
        if i > 0 { assert pieces[2 * i + 1] == tail[2 * (i - 1) + 1] && ds[i] == ds[1..][i - 1]; }
      }
      forall i | 0 <= i <= |ds| ensures pieces[2 * i].Gap? {
        if i > 0 { assert pieces[2 * i] == tail[2 * (i - 1)]; }
      }
    }
  }

  /** The pieces with every detection's own text in its hole. */
  function Refilled(pieces: seq<Piece>): string {
    if pieces == [] then ""
    else (match pieces[0] case Gap(text) => text case Hole(d, _) => d.text) + Refilled(pieces[1..])
  }

  lemma RefilledPair(gap: string, d: Detection, synthetic: string, tail: seq<Piece>)
    ensures Refilled([Gap(gap), Hole(d, synthetic)] + tail) == gap + d.text + Refilled(tail)
  {
    var pieces := [Gap(gap), Hole(d, synthetic)] + tail;
    assert pieces[1..] == [Hole(d, synthetic)] + tail && pieces[1..][1..] == tail;
    assert Refilled(pieces[1..]) == d.text + Refilled(tail);
  }

  /** Putting the detections' texts back in the holes rebuilds the original. */
  lemma {:induction false} RefillRebuilds(original: string, ds: seq<Detection>, cursor: int, synth: Synthesizer)
    requires Spliceable(original, ds, cursor)
    ensures Refilled(Splice(original, ds, cursor, synth)) == original[cursor..]
    decreases |ds|
  {
    if ds == [] {
      assert Splice(original, ds, cursor, synth)[1..] == [];
    } else {
      RefillRebuilds(original, ds[1..], ds[0].end, synth);
      RefilledPair(Slice(original, cursor, ds[0].start), ds[0], SyntheticOf(synth, ds[0]),
        Splice(original, ds[1..], ds[0].end, synth));
      assert original[cursor..] == original[cursor..ds[0].start] + original[ds[0].start..ds[0].end]
        + original[ds[0].end..];
    }
  }

  /** How far the first i replacements have moved the rest of the text. */
  function Shift(ds: seq<Detection>, i: nat, synth: Synthesizer): int
    requires i <= |ds|
  {
    if i == 0 then 0 else Shift(ds, i - 1, synth) + |SyntheticOf(synth, ds[i - 1])| - Length(ds[i - 1])
  }

  /** Where the text behind the first i detections starts. */
  function Behind(ds: seq<Detection>, i: nat): int
    requires i <= |ds|
  {
    if i == 0 then 0 else ds[i - 1].end
  }

  lemma SplitFirst(original: string, ds: seq<Detection>, cursor: int, synth: Synthesizer)
    requires Spliceable(original, ds, cursor) && ds != []
    ensures Spliceable(original, ds[1..], ds[0].end)
    ensures cursor <= ds[0].start < ds[0].end <= |original| && ds[0].Valid()
    ensures Sanitised(Splice(original, ds, cursor, synth))
         == original[cursor..ds[0].start] + SyntheticOf(synth, ds[0])
           + Sanitised(Splice(original, ds[1..], ds[0].end, synth))
  {
    var gap, hole := Gap(Slice(original, cursor, ds[0].start)), Hole(ds[0], SyntheticOf(synth, ds[0]));
    var tail := Splice(original, ds[1..], ds[0].end, synth);
    assert Splice(original, ds, cursor, synth) == [gap, hole] + tail;
    SanitisedPair(gap, hole, tail);
  }

  lemma SanitisedPair(gap: Piece, hole: Piece, tail: seq<Piece>)
    ensures Sanitised([gap, hole] + tail) == PieceText(gap) + PieceText(hole) + Sanitised(tail)
  {
    SanitisedAppend([gap, hole], tail);
    assert [gap, hole][1..] == [hole];
    assert Sanitised([hole]) == PieceText(hole);
  }

  lemma SanitisedRest(original: string, cursor: int, synth: Synthesizer)
    requires 0 <= cursor <= |original|
    ensures Sanitised(Splice(original, [], cursor, synth)) == original[cursor..]
  {
    var pieces := Splice(original, [], cursor, synth);
    assert pieces[1..] == [];
    assert Sanitised(pieces[1..]) == "";
  }

  /** The text sent upstream for detections in order. */
  function Spliced(original: string, ds: seq<Detection>, synth: Synthesizer): string {
    Sanitised(Splice(original, ds, 0, synth))
  }

  /** What the splice still has to produce behind the first i detections. */
  function Remainder(original: string, ds: seq<Detection>, synth: Synthesizer, i: nat): string
    requires i <= |ds|
  {
    Sanitised(Splice(original, ds[i..], Behind(ds, i), synth))
  }

  /** The sanitised text in two: what the first i detections produced, and the splice of the rest. */
  lemma {:induction false} CutAt(
      original: string, ds: seq<Detection>, synth: Synthesizer, i: nat) returns (head: string)
    requires Spliceable(original, ds, 0) && i <= |ds|
    ensures Spliceable(original, ds[i..], Behind(ds, i))
    ensures Spliced(original, ds, synth) == head + Remainder(original, ds, synth, i)
    ensures |head| == Behind(ds, i) + Shift(ds, i, synth)
  {
    if i == 0 {
      head := "";
      assert ds[0..] == ds;
    } else {
      var before := CutAt(original, ds, synth, i - 1);
      var mid := CutOne(original, ds, synth, i);
      head := before + mid;
      ConcatAssociative(before, mid, Remainder(original, ds, synth, i));
    }
  }

  /** One detection further. */
  lemma CutOne(original: string, ds: seq<Detection>, synth: Synthesizer, i: nat) returns (mid: string)
    requires 0 < i <= |ds| && Spliceable(original, ds[i - 1..], Behind(ds, i - 1))
    ensures Spliceable(original, ds[i..], Behind(ds, i))
    ensures Remainder(original, ds, synth, i - 1) == mid + Remainder(original, ds, synth, i)
    ensures |mid| == Behind(ds, i) - Behind(ds, i - 1) + Shift(ds, i, synth) - Shift(ds, i - 1, synth)
  {
    var rest := ds[i - 1..];
    assert rest[1..] == ds[i..] && rest[0] == ds[i - 1];
    SplitFirst(original, rest, Behind(ds, i - 1), synth);
    mid := original[Behind(ds, i - 1)..rest[0].start] + SyntheticOf(synth, rest[0]);
  }

  /** The sanitised text is as long as the original plus what each synthetic adds to its span. */
  lemma SanitisedLength(original: string, ds: seq<Detection>, synth: Synthesizer)
    requires Spliceable(original, ds, 0)
    ensures |Spliced(original, ds, synth)| == |original| + Shift(ds, |ds|, synth)
  {
    var head := CutAt(original, ds, synth, |ds|);
    SanitisedRest(original, Behind(ds, |ds|), synth);
  }

  /** Position p lies behind the first i detections and before the next. */
  ghost predicate InGap(original: string, ds: seq<Detection>, i: int, p: int) {
    0 <= i <= |ds| && Behind(ds, i) <= p < (if i == |ds| then |original| else ds[i].start)
  }

  /** Character p of the original stands at position q of the sanitised text. */
  ghost predicate CopiedTo(original: string, p: int, out: string, q: int) {
    0 <= p < |original| && 0 <= q < |out| && out[q] == original[p]
  }

  /** The splice starts with the text up to the first detection. */
  lemma FirstGap(original: string, ds: seq<Detection>, synth: Synthesizer, i: nat, p: int)
    requires InGap(original, ds, i, p) && Spliceable(original, ds[i..], Behind(ds, i))
    ensures CopiedTo(original, p, Remainder(original, ds, synth, i), p - Behind(ds, i))
  {
    var from := Behind(ds, i);
    if i == |ds| {
      assert ds[i..] == [];
      SanitisedRest(original, from, synth);
    } else {
      SplitFirst(original, ds[i..], from, synth);
      assert original[from..ds[i].start][p - from] == original[p];
    }
  }

  /** A character behind the first i detections is copied to its own place plus their shift. */
  lemma GapAligned(original: string, ds: seq<Detection>, synth: Synthesizer, i: nat, p: int)
    requires Spliceable(original, ds, 0) && InGap(original, ds, i, p)
    ensures CopiedTo(original, p, Spliced(original, ds, synth), p + Shift(ds, i, synth))
  {
    var head := CutAt(original, ds, synth, i);
    FirstGap(original, ds, synth, i, p);
    var at := p + Shift(ds, i, synth);
    assert at == |head| + (p - Behind(ds, i));
    CopiedBehind(original, p, head, Remainder(original, ds, synth, i), p - Behind(ds, i),
      Spliced(original, ds, synth), at);
  }

  lemma CopiedBehind(original: string, p: int, head: string, rest: string, q: int, out: string, at: int)
    requires CopiedTo(original, p, rest, q) && out == head + rest && at == |head| + q
    ensures CopiedTo(original, p, out, at)
  {
  }

  /** The first hole of what follows the first i detections. */
  lemma FirstHole(original: string, ds: seq<Detection>, synth: Synthesizer, i: nat)
    requires i < |ds| && Spliceable(original, ds[i..], Behind(ds, i))
    ensures OccursAt(Remainder(original, ds, synth, i), SyntheticOf(synth, ds[i]), ds[i].start - Behind(ds, i))
  {
    var rest, from := ds[i..], Behind(ds, i);
    SplitFirst(original, rest, from, synth);
    OccursBetween(original[from..rest[0].start], SyntheticOf(synth, rest[0]),
      Sanitised(Splice(original, rest[1..], rest[0].end, synth)));
  }

  /** Hole i starts at its detection's start plus the shift of the first i, and holds synthetic i. */
  lemma HoleAligned(original: string, ds: seq<Detection>, synth: Synthesizer, i: nat)
    requires Spliceable(original, ds, 0) && i < |ds|
    ensures OccursAt(
      Spliced(original, ds, synth), SyntheticOf(synth, ds[i]), ds[i].start + Shift(ds, i, synth))
  {
    var head := CutAt(original, ds, synth, i);
    FirstHole(original, ds, synth, i);
    var s, at := SyntheticOf(synth, ds[i]), ds[i].start + Shift(ds, i, synth);
    assert at == |head| + (ds[i].start - Behind(ds, i));
    OccursFurther(head, Remainder(original, ds, synth, i), s, ds[i].start - Behind(ds, i),
      Spliced(original, ds, synth), at);
  }

  lemma OccursFurther(head: string, rest: string, s: string, q: int, out: string, at: int)
    requires OccursAt(rest, s, q) && out == head + rest && at == |head| + q
    ensures OccursAt(out, s, at)
  {
    OccursLater(head, rest, s, q);
  }

  lemma OccursBetween(a: string, s: string, b: string)
    ensures OccursAt(a + s + b, s, |a|)
  {
    assert (a + s + b)[|a|..|a| + |s|] == s;
  }

  /** All of the above for the detections `merge` accepted. */
  lemma ForwardAlignment(
      cfg: MergeConfig, original: string, ds: seq<Detection>, exceptions: seq<ExceptionEntry>, synth: Synthesizer)
    requires forall d :: d in ds ==> d.Valid()
    ensures var a := Merged(cfg, original, ds, exceptions).accepted;
      Spliceable(original, a, 0) && Aligned(original, a, synth, Layout(original, a, synth))
  {
    var a := Merged(cfg, original, ds, exceptions).accepted;
    AcceptedSpliceable(cfg, original, ds, exceptions);
    SpliceAligned(original, a, synth);
  }

  /** One hole per detection in order, the original recoverable from the pieces, the length accounted for,
      and every hole and every gap character at its shifted place. */
  ghost predicate Aligned(original: string, a: seq<Detection>, synth: Synthesizer, pieces: seq<Piece>) {
    && |pieces| == 2 * |a| + 1
    && (forall i :: 0 <= i < |a| ==> pieces[2 * i + 1] == Hole(a[i], SyntheticOf(synth, a[i])))
    && Refilled(pieces) == original
    && |Sanitised(pieces)| == |original| + Shift(a, |a|, synth)
    && (forall i :: 0 <= i < |a| ==>
      OccursAt(Sanitised(pieces), SyntheticOf(synth, a[i]), a[i].start + Shift(a, i, synth)))
    && (forall i, p :: InGap(original, a, i, p) ==> CopiedTo(original, p, Sanitised(pieces), p + Shift(a, i, synth)))
  }

  lemma SpliceAligned(original: string, a: seq<Detection>, synth: Synthesizer)
    requires Spliceable(original, a, 0)
    ensures Aligned(original, a, synth, Splice(original, a, 0, synth))
  {
    SpliceShape(original, a, 0, synth);
    RefillRebuilds(original, a, 0, synth);
    SanitisedLength(original, a, synth);
    AllHolesAligned(original, a, synth);
    AllGapsAligned(original, a, synth);
  }

  lemma AllHolesAligned(original: string, a: seq<Detection>, synth: Synthesizer)
    requires Spliceable(original, a, 0)
    ensures var out := Spliced(original, a, synth);
      forall i :: 0 <= i < |a| ==> OccursAt(out, SyntheticOf(synth, a[i]), a[i].start + Shift(a, i, synth))
  {
    var out := Spliced(original, a, synth);
    forall i | 0 <= i < |a| ensures OccursAt(out, SyntheticOf(synth, a[i]), a[i].start + Shift(a, i, synth)) {
      HoleAligned(original, a, synth, i);
    }
  }

  lemma AllGapsAligned(original: string, a: seq<Detection>, synth: Synthesizer)
    requires Spliceable(original, a, 0)
    ensures var out := Spliced(original, a, synth);
      forall i, p :: InGap(original, a, i, p) ==> CopiedTo(original, p, out, p + Shift(a, i, synth))
  {
    var out := Spliced(original, a, synth);
    forall i, p | InGap(original, a, i, p) ensures CopiedTo(original, p, out, p + Shift(a, i, synth)) {
      GapAligned(original, a, synth, i, p);
    }
  }

  // ----- Session map and component index -----

  /** Piece i is the last hole filled with s. */
  ghost predicate LastHole(pieces: seq<Piece>, s: string, i: int) {
    && 0 <= i < |pieces| && pieces[i].Hole? && pieces[i].synthetic == s
    && (forall j :: i < j < |pieces| && pieces[j].Hole? ==> pieces[j].synthetic != s)
  }

  /** The session map holds exactly the spliced synthetics, each with the text and type of its last hole. */
  lemma {:induction false} LastWriteWins(pieces: seq<Piece>)
    ensures forall i :: 0 <= i < |pieces| && pieces[i].Hole? ==> pieces[i].synthetic in EntriesOf(pieces)
    ensures forall s :: s in EntriesOf(pieces) ==> exists i :: LastHole(pieces, s, i)
    ensures forall s, i :: LastHole(pieces, s, i) ==>
      var d := pieces[i].detection;
      s in EntriesOf(pieces) && EntriesOf(pieces)[s] == Entry(d.text, s, d.entityType)
  {
    if pieces == [] {
    } else {
      var n := |pieces| - 1;
      var front, last := pieces[..n], pieces[n];
      LastWriteWins(front);
      forall s | s in EntriesOf(pieces) ensures exists i :: LastHole(pieces, s, i) {
        if last.Hole? && last.synthetic == s {
          assert LastHole(pieces, s, n);
        } else {
          var i :| LastHole(front, s, i);
          assert LastHole(pieces, s, i);
        }
      }
      forall s, i | LastHole(pieces, s, i)
        ensures var d := pieces[i].detection;
          s in EntriesOf(pieces) && EntriesOf(pieces)[s] == Entry(d.text, s, d.entityType)
      {
        if i < n { assert LastHole(front, s, i); }
      }
    }
  }

  /** The component index and the session map are written together. */
  lemma {:induction false} IndexAgrees(pieces: seq<Piece>)
    ensures IndexOf(pieces).values.Keys == EntriesOf(pieces).Keys
    ensures forall s :: s in EntriesOf(pieces) ==>
      IndexOf(pieces).values[s] == Decompose(EntriesOf(pieces)[s].entityType, EntriesOf(pieces)[s].original, s)
  {
    if pieces == [] {
    } else {
      IndexAgrees(pieces[..|pieces| - 1]);
    }
  }

  /** After a call on an empty session map, the two stores agree on every synthetic, colliding ones included. */
  lemma SessionMapAgreesWithIndex(original: string, ds: seq<Detection>, synth: Synthesizer, s: string)
    requires forall d :: d in ds ==> d.Valid()
    ensures var pieces := Layout(original, ds, synth);
      && (s in IndexOf(pieces).values <==> s in EntriesOf(pieces))
      && (s in EntriesOf(pieces) ==>
            var comps := IndexOf(pieces).values[s];
            && comps != [] && comps[0].kind == Full && comps[0].surface == s
            && comps[0].originalSurface == EntriesOf(pieces)[s].original
            && forall i :: 0 < i < |comps| ==> comps[i].kind != Full)
  {
    var pieces := Layout(original, ds, synth);
    IndexAgrees(pieces);
    if s in EntriesOf(pieces) {
      DecomposeFullFirst(EntriesOf(pieces)[s].entityType, EntriesOf(pieces)[s].original, s);
    }
  }

  /** The reversal's fallback to the session map is never reached after a forward pass: every synthetic has
      components. */
  lemma NeverBare(pieces: seq<Piece>, i: int)
    ensures !Bare(IndexOf(pieces), i)
  {
    IndexAgrees(pieces);
    var index := IndexOf(pieces);
    if 0 <= i < |index.keys| {
      var s := index.keys[i];
      assert s in index.keys;
      DecomposeFullFirst(EntriesOf(pieces)[s].entityType, EntriesOf(pieces)[s].original, s);
    }
  }
}
