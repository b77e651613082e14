/** Echoing the sanitised text back: when longest-first replacement undoes the splice. */
module RoundTrip {
  import opened Sequences
  import opened Text
  import opened Detections
  import opened Merge
  import opened Components
  import opened SessionMap
  import opened Substitution
  import opened ForwardProperties
  import opened Replies

  /** The original the session map holds for each spliced synthetic: that of its last detection. */
  function Finals(pieces: seq<Piece>): map<string, string> {
    map s | s in EntriesOf(pieces) :: EntriesOf(pieces)[s].original
  }

  /** The candidates in the order the reversal tries them. */
  function EchoCandidates(pieces: seq<Piece>): seq<Candidate> {
    SortedCandidates(IndexOf(pieces), EntriesOf(pieces))
  }

  /** The sanitised text as a reply: the gaps are its own words, the synthetics forms of the request. */
  function EchoOf(pieces: seq<Piece>): seq<Fragment> {
    seq(|pieces|, i requires 0 <= i < |pieces| =>
      match pieces[i] case Gap(text) => Own(text) case Hole(_, synthetic) => Form(synthetic))
  }

  /** No synthetic is empty, and no component of one name reads like the synthetic of another. */
  ghost predicate OwnForms(pieces: seq<Piece>, cands: seq<Candidate>) {
    && "" !in EntriesOf(pieces)
    && forall c :: c in cands && c.surface in EntriesOf(pieces) ==> c.original == EntriesOf(pieces)[c.surface].original
  }

  /** The echo is a clean reply: each surface, when it is tried, stands exactly at the synthetics it belongs to. */
  ghost predicate CleanEcho(pieces: seq<Piece>, cands: seq<Candidate>) {
    OwnForms(pieces, cands) && CleanReply(EchoOf(pieces), cands)
  }

  lemma {:induction false} EchoIsSanitised(pieces: seq<Piece>)
    ensures Written(EchoOf(pieces), map[]) == Sanitised(pieces)
  {
    if pieces == [] {
    } else {
      EchoIsSanitised(pieces[1..]);
      assert EchoOf(pieces)[1..] == EchoOf(pieces[1..]);
    }
  }

  /** c tells of the original its synthetic stands for. */
  ghost predicate Faithful(finals: map<string, string>, c: Candidate) {
    c.isFull ==> c.surface in finals && finals[c.surface] == c.original
  }

  // ----- The candidates of a forward pass -----

  lemma {:induction false} FromComponentsMembers(comps: seq<Component>)
    ensures |FromComponents(comps)| == |comps|
    ensures forall i :: 0 <= i < |comps| ==>
      FromComponents(comps)[i] == Candidate(comps[i].surface, comps[i].originalSurface, comps[i].kind == Full)
  {
    if comps == [] {
    } else {
      FromComponentsMembers(comps[..|comps| - 1]);
    }
  }

  /** One synthetic's candidates: its own full form first, and no other full form. */
  ghost predicate OneFull(cs: seq<Candidate>, synthetic: string, original: string) {
    && cs != [] && cs[0] == Candidate(synthetic, original, true)
    && forall i :: 0 < i < |cs| ==> !cs[i].isFull && cs[i].surface != ""
  }

  lemma CandidatesForOneFull(pieces: seq<Piece>, s: string)
    requires s in EntriesOf(pieces)
    ensures s in IndexOf(pieces).values
    ensures OneFull(CandidatesFor(s, IndexOf(pieces).values[s], EntriesOf(pieces)), s, EntriesOf(pieces)[s].original)
  {
    IndexAgrees(pieces);
    var e := EntriesOf(pieces)[s];
    DecomposeFullFirst(e.entityType, e.original, s);
    FromComponentsMembers(IndexOf(pieces).values[s]);
  }

  lemma {:induction false} CandidatesOfMembers(
      keys: seq<string>, values: map<string, seq<Component>>, entries: map<string, Entry>)
    requires forall k :: k in keys ==> k in values
    ensures forall c :: c in CandidatesOf(keys, values, entries) ==>
      exists k :: k in keys && c in CandidatesFor(k, values[k], entries)
    ensures forall k, c :: k in keys && c in CandidatesFor(k, values[k], entries) ==>
      c in CandidatesOf(keys, values, entries)
  {
    if keys == [] {
    } else {
      var front, last := keys[..|keys| - 1], keys[|keys| - 1];
      CandidatesOfMembers(front, values, entries);
      assert last in keys && forall k :: k in keys <==> k in front || k == last;
    }
  }

  /** Every full candidate tells of the last written original, and every spliced synthetic has one. */
  lemma EchoCandidatesFaithful(pieces: seq<Piece>)
    ensures forall c :: c in EchoCandidates(pieces) ==> Faithful(Finals(pieces), c) && (c.surface == "" ==> c.isFull)
    ensures forall s :: s in EntriesOf(pieces) ==>
      Candidate(s, EntriesOf(pieces)[s].original, true) in EchoCandidates(pieces)
  {
    var index, entries := IndexOf(pieces), EntriesOf(pieces);
    var cands := CandidatesOf(index.keys, index.values, entries);
    IndexAgrees(pieces);
    CandidatesOfMembers(index.keys, index.values, entries);
    SortKeepsElements(cands, LongerFirst);
    forall c | c in cands ensures Faithful(Finals(pieces), c) && (c.surface == "" ==> c.isFull) {
      var k :| k in index.keys && c in CandidatesFor(k, index.values[k], entries);
      CandidatesForOneFull(pieces, k);
    }
    forall s | s in entries ensures Candidate(s, entries[s].original, true) in cands {
      CandidatesForOneFull(pieces, s);
      assert s in index.keys;
    }
  }

  /** What a spliced synthetic means to the reversal is the last original written under it. */
  lemma SyntheticMeans(pieces: seq<Piece>, s: string)
    requires OwnForms(pieces, EchoCandidates(pieces)) && s in EntriesOf(pieces)
    ensures var meaning := Meaning(EchoCandidates(pieces));
      s in meaning && meaning[s] == EntriesOf(pieces)[s].original
  {
    EchoCandidatesFaithful(pieces);
    MeaningIsFirst(EchoCandidates(pieces), s);
    AgreedMeaning(EchoCandidates(pieces), s, EntriesOf(pieces)[s].original);
  }

  // ----- The results -----

  /** The pieces with, in each hole, the original the session map holds for its synthetic. */
  function Restored(pieces: seq<Piece>, finals: map<string, string>): string {
    if pieces == [] then "" else RestoredText(pieces[0], finals) + Restored(pieces[1..], finals)
  }

  function RestoredText(p: Piece, finals: map<string, string>): string {
    match p
    case Gap(text) => text
    case Hole(_, s) => if s in finals then finals[s] else s
  }

  lemma {:induction false} WrittenIsRestored(
      pieces: seq<Piece>, meaning: map<string, string>, finals: map<string, string>)
    requires forall i :: 0 <= i < |pieces| && pieces[i].Hole? ==>
      var s := pieces[i].synthetic; s in meaning && s in finals && meaning[s] == finals[s]
    ensures Written(EchoOf(pieces), meaning) == Restored(pieces, finals)
  {
    if pieces == [] {
    } else {
      WrittenIsRestored(pieces[1..], meaning, finals);
      assert EchoOf(pieces)[1..] == EchoOf(pieces[1..]);
    }
  }

  /** A clean echo comes back with the last written original in every hole, collisions included. */
  lemma EchoExact(pieces: seq<Piece>)
    requires CleanEcho(pieces, EchoCandidates(pieces))
    ensures ReverseAll(Sanitised(pieces), EchoCandidates(pieces)).text == Restored(pieces, Finals(pieces))
  {
    var cands := EchoCandidates(pieces);
    EchoIsSanitised(pieces);
    CleanReplyReversed(EchoOf(pieces), cands);
    LastWriteWins(pieces);
    forall i | 0 <= i < |pieces| && pieces[i].Hole?
      ensures var s := pieces[i].synthetic; s in Meaning(cands) && Meaning(cands)[s] == Finals(pieces)[s]
    {
      SyntheticMeans(pieces, pieces[i].synthetic);
    }
    WrittenIsRestored(pieces, Meaning(cands), Finals(pieces));
  }

  predicate SameSynthetic(a: Piece, b: Piece) {
    a.Hole? && b.Hole? && a.synthetic == b.synthetic
  }

  /** Equal synthetics stand for equal originals. */
  ghost predicate Consistent(pieces: seq<Piece>) {
    forall i, j :: 0 <= i < |pieces| && 0 <= j < |pieces| && SameSynthetic(pieces[i], pieces[j]) ==>
      pieces[i].detection.text == pieces[j].detection.text
  }

  /** The session map gives every hole its own original if and only if equal synthetics stand for equal ones. */
  lemma FinalsConsistent(pieces: seq<Piece>)
    ensures (forall i :: 0 <= i < |pieces| && pieces[i].Hole? ==>
               pieces[i].synthetic in Finals(pieces) && Finals(pieces)[pieces[i].synthetic] == pieces[i].detection.text)
       <==> Consistent(pieces)
  {
    LastWriteWins(pieces);
    if Consistent(pieces) {
      forall i | 0 <= i < |pieces| && pieces[i].Hole?
        ensures pieces[i].synthetic in Finals(pieces) && Finals(pieces)[pieces[i].synthetic] == pieces[i].detection.text
      {
        var s := pieces[i].synthetic;
        var j :| LastHole(pieces, s, j);
        assert SameSynthetic(pieces[i], pieces[j]);
      }
    }
  }

  lemma {:induction false} RestoredAppend(a: seq<Piece>, b: seq<Piece>, finals: map<string, string>)
    ensures Restored(a + b, finals) == Restored(a, finals) + Restored(b, finals)
  {
    if a == [] {
      assert a + b == b;
    } else {
      RestoredAppend(a[1..], b, finals);
      assert (a + b)[1..] == a[1..] + b;
      ConcatAssociative(RestoredText(a[0], finals), Restored(a[1..], finals), Restored(b, finals));
    }
  }

  /** Where piece i starts once the holes hold what the session map gives for them. */
  function Place(pieces: seq<Piece>, finals: map<string, string>, i: nat): nat
    requires i <= |pieces|
  {
    |Restored(pieces[..i], finals)|
  }

  lemma PlaceHolds(pieces: seq<Piece>, finals: map<string, string>, i: nat)
    requires i < |pieces|
    ensures Place(pieces, finals, i) <= Place(pieces, finals, i + 1) <= |Restored(pieces, finals)|
    ensures Restored(pieces, finals)[Place(pieces, finals, i)..Place(pieces, finals, i + 1)]
      == RestoredText(pieces[i], finals)
  {
    var front, back := pieces[..i], pieces[i + 1..];
    assert pieces == pieces[..i + 1] + back && pieces[..i + 1] == front + [pieces[i]];
    RestoredAppend(pieces[..i + 1], back, finals);
    RestoredAppend(front, [pieces[i]], finals);
    SliceOut(Restored(front, finals), RestoredText(pieces[i], finals), Restored(back, finals));
  }

  lemma SliceOut(a: string, b: string, c: string)
    ensures (a + b + c)[|a|..|a + b|] == b
  {
  }

  /** Piece i of the reversed echo reads t. */
  ghost predicate Reads(pieces: seq<Piece>, reversed: string, i: nat, t: string)
    requires i < |pieces|
  {
    var from, to := Place(pieces, Finals(pieces), i), Place(pieces, Finals(pieces), i + 1);
    0 <= from <= to <= |reversed| && reversed[from..to] == t
  }

  lemma HoleReads(pieces: seq<Piece>, i: nat)
    requires i < |pieces| && pieces[i].Hole? && pieces[i].synthetic in Finals(pieces)
    ensures Reads(pieces, Restored(pieces, Finals(pieces)), i, pieces[i].detection.text)
       <==> Finals(pieces)[pieces[i].synthetic] == pieces[i].detection.text
  {
    PlaceHolds(pieces, Finals(pieces), i);
  }

  /** In the reversed text of a clean echo, every hole reads its own original if and only if equal synthetics
      stand for equal originals. */
  lemma EveryHoleRestoredExactly(pieces: seq<Piece>)
    requires CleanEcho(pieces, EchoCandidates(pieces))
    ensures var reversed := ReverseAll(Sanitised(pieces), EchoCandidates(pieces)).text;
      (forall i :: 0 <= i < |pieces| && pieces[i].Hole? ==> Reads(pieces, reversed, i, pieces[i].detection.text))
      <==> Consistent(pieces)
  {
    EchoExact(pieces);
    FinalsConsistent(pieces);
    AllHolesRead(pieces);
  }

  lemma AllHolesRead(pieces: seq<Piece>)
    ensures (forall i :: 0 <= i < |pieces| && pieces[i].Hole? ==>
               Reads(pieces, Restored(pieces, Finals(pieces)), i, pieces[i].detection.text))
       <==> (forall i :: 0 <= i < |pieces| && pieces[i].Hole? ==>
               pieces[i].synthetic in Finals(pieces) && Finals(pieces)[pieces[i].synthetic] == pieces[i].detection.text)
  {
    LastWriteWins(pieces);
    forall i | 0 <= i < |pieces| && pieces[i].Hole?
      ensures pieces[i].synthetic in Finals(pieces)
      ensures Reads(pieces, Restored(pieces, Finals(pieces)), i, pieces[i].detection.text)
         <==> Finals(pieces)[pieces[i].synthetic] == pieces[i].detection.text
    {
      HoleReads(pieces, i);
    }
  }

  lemma {:induction false} RestoredIsRefilled(pieces: seq<Piece>, finals: map<string, string>)
    requires forall i :: 0 <= i < |pieces| && pieces[i].Hole? ==>
      pieces[i].synthetic in finals && finals[pieces[i].synthetic] == pieces[i].detection.text
    ensures Restored(pieces, finals) == Refilled(pieces)
  {
    if pieces == [] {
    } else {
      RestoredIsRefilled(pieces[1..], finals);
    }
  }

  /** The texts hidden behind one synthetic are equally long. */
  ghost predicate EqualLengths(pieces: seq<Piece>) {
    forall i, j :: 0 <= i < |pieces| && 0 <= j < |pieces| && SameSynthetic(pieces[i], pieces[j]) ==>
      |pieces[i].detection.text| == |pieces[j].detection.text|
  }

  lemma {:induction false} RefilledByHole(pieces: seq<Piece>, finals: map<string, string>, i: nat)
    requires forall k :: 0 <= k < |pieces| && pieces[k].Hole? ==>
      pieces[k].synthetic in finals && |finals[pieces[k].synthetic]| == |pieces[k].detection.text|
    requires Restored(pieces, finals) == Refilled(pieces) && i < |pieces| && pieces[i].Hole?
    ensures finals[pieces[i].synthetic] == pieces[i].detection.text
  {
    var n := |RestoredText(pieces[0], finals)|;
    var t := if pieces[0].Gap? then pieces[0].text else pieces[0].detection.text;
    assert Refilled(pieces)[..n] == t && Restored(pieces, finals)[..n] == RestoredText(pieces[0], finals);
    if i == 0 {
    } else {
      assert Refilled(pieces)[n..] == Refilled(pieces[1..]);
      assert Restored(pieces, finals)[n..] == Restored(pieces[1..], finals);
      RefilledByHole(pieces[1..], finals, i - 1);
    }
  }

  /** The whole text of a clean echo comes back if equal synthetics stand for equal originals; and, when the
      texts behind one synthetic are equally long, only then. */
  lemma EchoRefilledExactly(pieces: seq<Piece>)
    requires CleanEcho(pieces, EchoCandidates(pieces))
    ensures var reversed := ReverseAll(Sanitised(pieces), EchoCandidates(pieces)).text;
      && (Consistent(pieces) ==> reversed == Refilled(pieces))
      && (EqualLengths(pieces) ==> (reversed == Refilled(pieces) <==> Consistent(pieces)))
  {
    var finals := Finals(pieces);
    EchoExact(pieces);
    FinalsConsistent(pieces);
    if Consistent(pieces) {
      RestoredIsRefilled(pieces, finals);
    }
    if EqualLengths(pieces) && Restored(pieces, finals) == Refilled(pieces) {
      FinalsAsLong(pieces);
      forall i | 0 <= i < |pieces| && pieces[i].Hole?
        ensures pieces[i].synthetic in finals && finals[pieces[i].synthetic] == pieces[i].detection.text
      {
        RefilledByHole(pieces, finals, i);
      }
    }
  }

  lemma FinalsAsLong(pieces: seq<Piece>)
    requires EqualLengths(pieces)
    ensures forall i :: 0 <= i < |pieces| && pieces[i].Hole? ==>
      var s := pieces[i].synthetic; s in Finals(pieces) && |Finals(pieces)[s]| == |pieces[i].detection.text|
  {
    LastWriteWins(pieces);
    forall i | 0 <= i < |pieces| && pieces[i].Hole?
      ensures var s := pieces[i].synthetic; s in Finals(pieces) && |Finals(pieces)[s]| == |pieces[i].detection.text|
    {
      var j :| LastHole(pieces, pieces[i].synthetic, j);
      assert SameSynthetic(pieces[i], pieces[j]);
    }
  }

  /** Echo round trip: what `merge` accepts, `apply_substitution` hides and a verbatim, clean reply carries back,
      `reverse_substitution` turns into the original text again, if and (for equally long texts) only if equal
      synthetics stand for equal originals. */
  lemma EchoRoundTrip(
      cfg: MergeConfig, original: string, ds: seq<Detection>, exceptions: seq<ExceptionEntry>, synth: Synthesizer)
    requires forall d :: d in ds ==> d.Valid()
    requires var pieces := Layout(original, Merged(cfg, original, ds, exceptions).accepted, synth);
      CleanEcho(pieces, EchoCandidates(pieces))
    ensures var pieces := Layout(original, Merged(cfg, original, ds, exceptions).accepted, synth);
      var reversed := ReverseAll(Sanitised(pieces), EchoCandidates(pieces)).text;
      && (Consistent(pieces) ==> reversed == original)
      && (EqualLengths(pieces) ==> (reversed == original <==> Consistent(pieces)))
  {
    var pieces := Layout(original, Merged(cfg, original, ds, exceptions).accepted, synth);
    EchoRefilledExactly(pieces);
    ForwardAlignment(cfg, original, ds, exceptions, synth);
  }

  /** With a single synthetic that has no components and whose occurrences do not overlap, consistent holes
      come back if and only if that synthetic stands nowhere in the sanitised text but in its own holes. */
  lemma SingleSyntheticExactly(pieces: seq<Piece>, c: Candidate)
    requires EchoCandidates(pieces) == [c] && c.surface != "" && Apart(Sanitised(pieces), c.surface)
    requires Consistent(pieces)
    ensures ReverseAll(Sanitised(pieces), EchoCandidates(pieces)).text == Refilled(pieces)
       <==> CleanEcho(pieces, EchoCandidates(pieces))
  {
    var cands := EchoCandidates(pieces);
    EchoCandidatesFaithful(pieces);
    assert c in cands && forall d :: d in cands <==> d == c;
    assert OwnForms(pieces, cands);
    FinalsConsistent(pieces);
    RestoredIsRefilled(pieces, Finals(pieces));
    EchoIsSanitised(pieces);
    LastWriteWins(pieces);
    forall i | 0 <= i < |pieces| && pieces[i].Hole?
      ensures var s := pieces[i].synthetic; s in Meaning(cands) && Meaning(cands)[s] == Finals(pieces)[s]
    {
      SyntheticMeans(pieces, pieces[i].synthetic);
    }
    WrittenIsRestored(pieces, Meaning(cands), Finals(pieces));
    assert cands[..0] == [] && cands[..|cands| - 1] == [];
    OnlyCleanStepsAdvance(EchoOf(pieces), map[], ReverseAll(Sanitised(pieces), []), c);
  }
}
