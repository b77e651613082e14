/** Which requests the generator's own collisions rule out of the round trip. */
module RoundTripLimits {
  import opened Results
  import opened Sequences
  import opened Text
  import opened Detections
  import opened Components
  import opened Substitution
  import opened ForwardProperties
  import opened Replies
  import opened RoundTrip
  import opened Synthetic

  /** `synthetic_for` with the request's country and salt. */
  function Generator(h: Hashing, packs: map<string, Pack>, country: string, salt: string): Synthesizer
    requires h.Good()
  {
    (entityType, original) => SyntheticFor(h, packs, entityType, original, country, salt)
  }

  /** Consistency read off the detections: equal synthetics only for equal texts. */
  lemma ConsistentDetections(original: string, a: seq<Detection>, synth: Synthesizer)
    requires Spliceable(original, a, 0)
    ensures Consistent(Splice(original, a, 0, synth)) <==>
      forall i, j :: 0 <= i < |a| && 0 <= j < |a| && SyntheticOf(synth, a[i]) == SyntheticOf(synth, a[j]) ==>
        a[i].text == a[j].text
  {
    SpliceShape(original, a, 0, synth);
    var pieces := Splice(original, a, 0, synth);
    if Consistent(pieces) {
      forall i, j | 0 <= i < |a| && 0 <= j < |a| && SyntheticOf(synth, a[i]) == SyntheticOf(synth, a[j])
        ensures a[i].text == a[j].text
      {
        assert SameSynthetic(pieces[2 * i + 1], pieces[2 * j + 1]);
      }
    }
    if forall i, j :: 0 <= i < |a| && 0 <= j < |a| && SyntheticOf(synth, a[i]) == SyntheticOf(synth, a[j]) ==>
      a[i].text == a[j].text {
      forall m, n | 0 <= m < |pieces| && 0 <= n < |pieces| && SameSynthetic(pieces[m], pieces[n])
        ensures pieces[m].detection.text == pieces[n].detection.text
      {
        HoleIndex(original, a, synth, m);
        HoleIndex(original, a, synth, n);
      }
    }
  }

  lemma HoleIndex(original: string, a: seq<Detection>, synth: Synthesizer, m: nat)
    requires Spliceable(original, a, 0)
    requires m < |Splice(original, a, 0, synth)| && Splice(original, a, 0, synth)[m].Hole?
    ensures m % 2 == 1 && m / 2 < |a|
      && Splice(original, a, 0, synth)[m] == Hole(a[m / 2], SyntheticOf(synth, a[m / 2]))
  {
    SpliceShape(original, a, 0, synth);
    var pieces, k := Splice(original, a, 0, synth), m / 2;
    assert pieces[2 * k].Gap?;
    assert m == 2 * k || m == 2 * k + 1;
  }

  /** A request whose accepted entities are all custom is consistent exactly when they are all the same text. */
  lemma CustomConsistentExactly(
      h: Hashing, packs: map<string, Pack>, country: string, salt: string, original: string, a: seq<Detection>)
    requires h.Good() && |salt| >= 6 && Spliceable(original, a, 0)
    requires forall i :: 0 <= i < |a| ==> a[i].entityType == "custom"
    ensures Consistent(Splice(original, a, 0, Generator(h, packs, country, salt)))
       <==> forall i, j :: 0 <= i < |a| && 0 <= j < |a| ==> a[i].text == a[j].text
  {
    var synth := Generator(h, packs, country, salt);
    ConsistentDetections(original, a, synth);
    forall i | 0 <= i < |a| ensures SyntheticOf(synth, a[i]) == CustomToken(salt) {
      CustomAllCollide(h, packs, a[i].text, country, salt);
    }
  }

  /** A request with more different names of one kind than their pool holds is never consistent. */
  lemma ManyNamesInconsistent(
      h: Hashing, packs: map<string, Pack>, country: string, salt: string, entityType: string, original: string,
      a: seq<Detection>)
    requires h.Good() && Spliceable(original, a, 0) && Pooled(entityType)
    requires forall i :: 0 <= i < |a| ==> a[i].entityType == entityType
    requires forall i, j :: 0 <= i < j < |a| ==> a[i].text != a[j].text
    requires var pool := PoolOf(PackFor(packs, country), entityType); pool != [] && |a| > |pool|
    ensures !Consistent(Splice(original, a, 0, Generator(h, packs, country, salt)))
  {
    var synth := Generator(h, packs, country, salt);
    ConsistentDetections(original, a, synth);
    var texts := seq(|a|, i requires 0 <= i < |a| => a[i].text);
    PoolCollides(h, packs, entityType, texts, country, salt);
    var i, j :| Collide(h, packs, entityType, texts, country, salt, i, j);
    assert SyntheticOf(synth, a[i]) == SyntheticOf(synth, a[j]);
  }

  // ----- Requests with custom entities only -----

  /** The token is a border of nothing but itself, whatever the salt. */
  lemma TokenUnbordered(salt: string)
    requires |salt| >= 6
    ensures Unbordered(CustomToken(salt)) && |CustomToken(salt)| == 15
  {
    var t := CustomToken(salt);
    assert t == "<custom-" + salt[..6] + ">";
    forall k | 0 < k < |t| ensures t[k..] != t[..|t| - k] {
      if k < 8 {
        assert t[k..][0] == t[k] == "<custom-"[k] && t[0] == '<';
      } else {
        assert t[k..][|t| - k - 1] == '>' && t[..|t| - k][|t| - k - 1] == "<custom-"[|t| - k - 1];
      }
    }
  }

  /** Every hole is filled with the one token, which has no form but the full one. */
  ghost predicate OneToken(pieces: seq<Piece>, token: string) {
    forall i :: 0 <= i < |pieces| && pieces[i].Hole? ==>
      var d := pieces[i].detection;
      pieces[i].synthetic == token && Decompose(d.entityType, d.text, token) == [Component(token, d.text, Full, None)]
  }

  lemma {:induction false} CustomIndex(pieces: seq<Piece>, token: string)
    requires OneToken(pieces, token)
    ensures IndexOf(pieces).keys == if token in EntriesOf(pieces) then [token] else []
    ensures token in EntriesOf(pieces) ==>
      IndexOf(pieces).values == map[token := [Component(token, EntriesOf(pieces)[token].original, Full, None)]]
    ensures forall s :: s in EntriesOf(pieces) ==> s == token
  {
    if pieces == [] {
    } else {
      CustomIndex(pieces[..|pieces| - 1], token);
    }
  }

  /** The reversal of such a request has one candidate: the token, for the last original written under it. */
  lemma CustomCandidate(pieces: seq<Piece>, token: string, last: int)
    requires OneToken(pieces, token) && LastHole(pieces, token, last)
    ensures EchoCandidates(pieces) == [Candidate(token, pieces[last].detection.text, true)]
  {
    LastWriteWins(pieces);
    CustomIndex(pieces, token);
    var comps := [Component(token, pieces[last].detection.text, Full, None)];
    var values, entries := IndexOf(pieces).values, EntriesOf(pieces);
    var only := [Candidate(token, pieces[last].detection.text, true)];
    assert [token][..0] == [] && comps[..0] == [];
    assert FromComponents(comps) == only;
    assert CandidatesOf([token], values, entries) == only;
    SortOfSorted(only, LongerFirst);
  }

  lemma SpliceCustom(
      h: Hashing, packs: map<string, Pack>, country: string, salt: string, original: string, a: seq<Detection>)
    requires h.Good() && |salt| >= 6 && Spliceable(original, a, 0)
    requires forall i :: 0 <= i < |a| ==> a[i].entityType == "custom"
    ensures OneToken(Splice(original, a, 0, Generator(h, packs, country, salt)), CustomToken(salt))
  {
    var synth := Generator(h, packs, country, salt);
    var pieces := Splice(original, a, 0, synth);
    forall m | 0 <= m < |pieces| && pieces[m].Hole?
      ensures pieces[m].synthetic == CustomToken(salt) && pieces[m].detection.entityType == "custom"
    {
      HoleIndex(original, a, synth, m);
      CustomAllCollide(h, packs, a[m / 2].text, country, salt);
    }
  }

  /** The token stands in the sanitised text exactly where it was spliced. */
  ghost predicate OnlySpliced(pieces: seq<Piece>, token: string) {
    forall p :: OccursAt(Sanitised(pieces), token, p) ==>
      exists i :: 0 <= i < |pieces| && pieces[i].Hole? && |Sanitised(pieces[..i])| == p
  }

  lemma {:induction false} MarkOffset(pieces: seq<Piece>, c: Candidate, i: nat)
    requires i <= |pieces|
    ensures Offset(Marked(EchoOf(pieces), map[], c), i) == |Sanitised(pieces[..i])|
  {
    if i == 0 {
    } else {
      var parts := Marked(EchoOf(pieces), map[], c);
      MarkOffset(pieces[1..], c, i - 1);
      assert parts[1..] == Marked(EchoOf(pieces[1..]), map[], c);
      assert pieces[..i][1..] == pieces[1..][..i - 1];
    }
  }

  /** So the echo of such a request is clean exactly when the token stands nowhere else, unless the token is
      what it stands for. */
  lemma CustomClean(pieces: seq<Piece>, token: string, last: int)
    requires OneToken(pieces, token) && LastHole(pieces, token, last) && token != ""
    ensures CleanEcho(pieces, EchoCandidates(pieces))
       <==> pieces[last].detection.text == token || OnlySpliced(pieces, token)
  {
    var cands := EchoCandidates(pieces);
    CustomCandidate(pieces, token, last);
    var c := Candidate(token, pieces[last].detection.text, true);
    LastWriteWins(pieces);
    CustomIndex(pieces, token);
    assert cands[..0] == [];
    assert OwnForms(pieces, cands);
    assert CleanReply(EchoOf(pieces), cands) <==> CleanStep(EchoOf(pieces), map[], c);
    MarksAreSpliced(pieces, c);
  }

  lemma MarksAreSpliced(pieces: seq<Piece>, c: Candidate)
    requires OneToken(pieces, c.surface)
    ensures OnlyAtMarks(Marked(EchoOf(pieces), map[], c), c.surface) <==> OnlySpliced(pieces, c.surface)
  {
    var parts := Marked(EchoOf(pieces), map[], c);
    JoinMarked(EchoOf(pieces), map[], c);
    EchoIsSanitised(pieces);
    forall i | 0 <= i < |pieces|
      ensures parts[i].marked == pieces[i].Hole? && Offset(parts, i) == |Sanitised(pieces[..i])|
    {
      MarkOffset(pieces, c, i);
    }
    forall p ensures MarkedAt(parts, p)
       <==> exists i :: 0 <= i < |pieces| && pieces[i].Hole? && |Sanitised(pieces[..i])| == p
    {
      if i :| 0 <= i < |pieces| && pieces[i].Hole? && |Sanitised(pieces[..i])| == p {
        assert parts[i].marked && Offset(parts, i) == p;
      }
    }
  }

  /** Custom entities only, with equally long texts and the token nowhere else: the echo gives the original back if
      and only if all the entities are the same text. Any two different ones of a length break it. */
  lemma CustomRoundTripExactly(
      h: Hashing, packs: map<string, Pack>, country: string, salt: string, original: string, a: seq<Detection>)
    requires h.Good() && |salt| >= 6 && Spliceable(original, a, 0)
    requires forall i :: 0 <= i < |a| ==> a[i].entityType == "custom"
    requires forall i, j :: 0 <= i < |a| && 0 <= j < |a| ==> |a[i].text| == |a[j].text|
    requires OnlySpliced(Splice(original, a, 0, Generator(h, packs, country, salt)), CustomToken(salt))
    ensures var pieces := Splice(original, a, 0, Generator(h, packs, country, salt));
      ReverseAll(Sanitised(pieces), EchoCandidates(pieces)).text == original
      <==> forall i, j :: 0 <= i < |a| && 0 <= j < |a| ==> a[i].text == a[j].text
  {
    var synth := Generator(h, packs, country, salt);
    var pieces := Splice(original, a, 0, synth);
    CustomConsistentExactly(h, packs, country, salt, original, a);
    SpliceCustom(h, packs, country, salt, original, a);
    CustomEchoClean(pieces, CustomToken(salt));
    forall i, j | 0 <= i < |pieces| && 0 <= j < |pieces| && SameSynthetic(pieces[i], pieces[j])
      ensures |pieces[i].detection.text| == |pieces[j].detection.text|
    {
      HoleIndex(original, a, synth, i);
      HoleIndex(original, a, synth, j);
    }
    EchoRefilledExactly(pieces);
    RefillRebuilds(original, a, 0, synth);
  }

  lemma CustomEchoClean(pieces: seq<Piece>, token: string)
    requires OneToken(pieces, token) && OnlySpliced(pieces, token) && token != ""
    ensures CleanEcho(pieces, EchoCandidates(pieces))
  {
    LastWriteWins(pieces);
    CustomIndex(pieces, token);
    if token in EntriesOf(pieces) {
      var last :| LastHole(pieces, token, last);
      CustomClean(pieces, token, last);
    } else {
      IndexAgrees(pieces);
      assert IndexOf(pieces).keys == [];
      assert EchoCandidates(pieces) == [];
    }
  }

  /** Custom entities that are all one text: the echo gives the original back if and only if the token stands
      nowhere but where it was spliced, or is the text itself. */
  lemma CustomStrayExactly(
      h: Hashing, packs: map<string, Pack>, country: string, salt: string, original: string, a: seq<Detection>)
    requires h.Good() && |salt| >= 6 && Spliceable(original, a, 0) && a != []
    requires forall i :: 0 <= i < |a| ==> a[i].entityType == "custom" && a[i].text == a[0].text
    ensures var pieces := Splice(original, a, 0, Generator(h, packs, country, salt));
      ReverseAll(Sanitised(pieces), EchoCandidates(pieces)).text == original
      <==> a[0].text == CustomToken(salt) || OnlySpliced(pieces, CustomToken(salt))
  {
    var synth, token := Generator(h, packs, country, salt), CustomToken(salt);
    var pieces := Splice(original, a, 0, synth);
    CustomConsistentExactly(h, packs, country, salt, original, a);
    SpliceCustom(h, packs, country, salt, original, a);
    var last := LastCustom(original, a, synth, token);
    CustomCandidate(pieces, token, last);
    CustomClean(pieces, token, last);
    TokenUnbordered(salt);
    UnborderedApart(Sanitised(pieces), token);
    SingleSyntheticExactly(pieces, Candidate(token, a[0].text, true));
    RefillRebuilds(original, a, 0, synth);
  }

  lemma LastCustom(original: string, a: seq<Detection>, synth: Synthesizer, token: string) returns (last: nat)
    requires Spliceable(original, a, 0) && a != [] && OneToken(Splice(original, a, 0, synth), token)
    ensures var pieces := Splice(original, a, 0, synth);
      last < |pieces| && LastHole(pieces, token, last) && pieces[last].detection == a[|a| - 1]
  {
    SpliceShape(original, a, 0, synth);
    var k := |a| - 1;
    var pieces := Splice(original, a, 0, synth);
    last := 2 * k + 1;
    assert pieces[2 * k + 1] == Hole(a[k], SyntheticOf(synth, a[k])) && pieces[2 * |a|].Gap?;
    LastOfRow(pieces, token, last);
  }

  // ----- Inputs on which the round trip fails -----

  function Custom(start: nat, text: string): Detection
    requires text != ""
  {
    Detection("custom", start, start + |text|, text, 1.0, 3, "contextual", None)
  }

  /** One detection of the splice, under the request's own generator. */
  lemma SpliceOne(
      h: Hashing, packs: map<string, Pack>, country: string, salt: string, original: string, d: Detection,
      rest: seq<Detection>, cursor: int)
    requires h.Good() && |salt| >= 6 && d.entityType == "custom" && cursor <= d.start
    ensures var synth := Generator(h, packs, country, salt);
      Splice(original, [d] + rest, cursor, synth)
      == [Gap(Slice(original, cursor, d.start)), Hole(d, CustomToken(salt))] + Splice(original, rest, d.end, synth)
  {
    assert ([d] + rest)[1..] == rest;
    CustomAllCollide(h, packs, d.text, country, salt);
  }

  lemma SanitisedTwo(gap: string, hole: Piece, tail: seq<Piece>)
    requires hole.Hole?
    ensures Sanitised([Gap(gap), hole] + tail) == gap + (hole.synthetic + Sanitised(tail))
  {
    SanitisedPair(Gap(gap), hole, tail);
    assert gap + hole.synthetic + Sanitised(tail) == gap + (hole.synthetic + Sanitised(tail));
  }

  lemma SanitisedFirst(hole: Piece, tail: seq<Piece>)
    requires hole.Hole?
    ensures Sanitised([Gap(""), hole] + tail) == hole.synthetic + Sanitised(tail)
  {
    SanitisedTwo("", hole, tail);
    assert "" + (hole.synthetic + Sanitised(tail)) == hole.synthetic + Sanitised(tail);
  }

  lemma SanitisedLast(gap: string)
    ensures Sanitised([Gap(gap)]) == gap
  {
    assert [Gap(gap)][1..] == [];
    assert Sanitised([]) == "";
  }

  /** With one candidate the reversal is one replacement. */
  lemma ReversedBy(t: string, c: Candidate)
    requires c.surface != ""
    ensures ReverseAll(t, [c]).text == Replace(t, c.surface, c.original)
  {
    assert [c][..0] == [];
    StepReplaces(Reversal(t, 0, 0), c);
  }

  function Repeated(s: string, n: nat): string {
    if n == 0 then "" else s + Repeated(s, n - 1)
  }

  lemma {:induction false} ReplaceRepeated(s: string, n: nat, o: string)
    requires s != ""
    ensures Replace(Repeated(s, n), s, o) == Repeated(o, n)
  {
    if n == 0 {
    } else {
      ReplaceRepeated(s, n - 1, o);
      assert Repeated(s, n)[..|s|] == s && Repeated(s, n)[|s|..] == Repeated(s, n - 1);
    }
  }

  /** Custom entities that follow one another without a gap, from `cursor` to the end of the text. */
  ghost predicate SideBySide(original: string, ds: seq<Detection>, cursor: int) {
    if ds == [] then cursor == |original|
    else
      && ds[0].start == cursor < ds[0].end && ds[0].entityType == "custom"
      && SideBySide(original, ds[1..], ds[0].end)
  }

  lemma {:induction false} SanitisedSideBySide(
      h: Hashing, packs: map<string, Pack>, country: string, salt: string, original: string, ds: seq<Detection>,
      cursor: int)
    requires h.Good() && |salt| >= 6 && SideBySide(original, ds, cursor)
    ensures Sanitised(Splice(original, ds, cursor, Generator(h, packs, country, salt)))
      == Repeated(CustomToken(salt), |ds|)
    decreases |ds|
  {
    var t := CustomToken(salt);
    if ds == [] {
      SanitisedLast("");
    } else {
      var tail := Splice(original, ds[1..], ds[0].end, Generator(h, packs, country, salt));
      SanitisedSideBySide(h, packs, country, salt, original, ds[1..], ds[0].end);
      assert ds == [ds[0]] + ds[1..];
      SpliceOne(h, packs, country, salt, original, ds[0], ds[1..], cursor);
      SanitisedFirst(Hole(ds[0], t), tail);
    }
  }

  lemma {:induction false} SideBySideCustom(original: string, ds: seq<Detection>, cursor: int)
    requires SideBySide(original, ds, cursor)
    ensures forall i :: 0 <= i < |ds| ==> ds[i].entityType == "custom"
  {
    if ds == [] {
    } else {
      SideBySideCustom(original, ds[1..], ds[0].end);
    }
  }

  /** A text made of custom entities side by side comes back as its last entity, once for each of them, so the
      round trip holds exactly for the texts that are their own last entity repeated. */
  lemma SideBySideReversed(
      h: Hashing, packs: map<string, Pack>, country: string, salt: string, original: string, ds: seq<Detection>)
    requires h.Good() && |salt| >= 6 && Spliceable(original, ds, 0) && SideBySide(original, ds, 0) && ds != []
    ensures var pieces := Splice(original, ds, 0, Generator(h, packs, country, salt));
      ReverseAll(Sanitised(pieces), EchoCandidates(pieces)).text == Repeated(ds[|ds| - 1].text, |ds|)
  {
    var t, last := CustomToken(salt), |ds| - 1;
    var pieces := Splice(original, ds, 0, Generator(h, packs, country, salt));
    SanitisedSideBySide(h, packs, country, salt, original, ds, 0);
    SideBySideCustom(original, ds, 0);
    SpliceCustom(h, packs, country, salt, original, ds);
    var at := LastCustom(original, ds, Generator(h, packs, country, salt), t);
    CustomCandidate(pieces, t, at);
    ReversedBy(Sanitised(pieces), Candidate(t, ds[last].text, true));
    ReplaceRepeated(t, |ds|, ds[last].text);
  }

  lemma LastOfRow(pieces: seq<Piece>, token: string, i: nat)
    requires i + 2 == |pieces| && pieces[i].Hole? && pieces[i].synthetic == token
    requires pieces[i + 1].Gap?
    ensures LastHole(pieces, token, i)
  {
  }

  lemma InOrderAlready(ds: seq<Detection>)
    requires forall i, j :: 0 <= i < j < |ds| ==> ds[i].start <= ds[j].start
    ensures StableSort(ds, ByStart) == ds
  {
    SortOfSorted(ds, ByStart);
  }

  /** Two originals under the custom token: the last one written comes back in both places. */
  lemma CollisionBreaksRoundTrip(h: Hashing, packs: map<string, Pack>, country: string, salt: string)
    requires h.Good() && |salt| >= 6
    ensures var pieces := Layout("ab", [Custom(0, "a"), Custom(1, "b")], Generator(h, packs, country, salt));
      ReverseAll(Sanitised(pieces), EchoCandidates(pieces)).text == "bb"
  {
    var ds := [Custom(0, "a"), Custom(1, "b")];
    InOrderAlready(ds);
    assert ds[1..] == [ds[1]] && [ds[1]][1..] == [];
    assert SideBySide("ab", [], 2) && SideBySide("ab", [ds[1]], 1);
    assert Spliceable("ab", [], 2) && Spliceable("ab", [ds[1]], 1);
    SideBySideReversed(h, packs, country, salt, "ab", ds);
    assert Repeated("b", 1) == "b" && Repeated("b", 2) == "bb";
  }

  lemma StrayLayout(h: Hashing, packs: map<string, Pack>, country: string, salt: string, original: string, d: Detection)
    requires h.Good() && |salt| >= 6 && d.entityType == "custom" && d.end == |original|
    requires 0 <= d.start <= |original| && original[..d.start] == CustomToken(salt)
    ensures Layout(original, [d], Generator(h, packs, country, salt))
         == [Gap(CustomToken(salt)), Hole(d, CustomToken(salt))] + [Gap("")]
  {
    InOrderAlready([d]);
    assert [d] == [d] + [];
    SpliceOne(h, packs, country, salt, original, d, [], 0);
  }

  /** A token the user happens to write: it is overwritten with what the request hides behind it. */
  lemma StrayBreaksRoundTrip(h: Hashing, packs: map<string, Pack>, country: string, salt: string)
    requires h.Good() && |salt| >= 6
    ensures var original := CustomToken(salt) + "a";
      var pieces := Layout(original, [Custom(|original| - 1, "a")], Generator(h, packs, country, salt));
      Consistent(pieces) && ReverseAll(Sanitised(pieces), EchoCandidates(pieces)).text == "aa" != original
  {
    var t := CustomToken(salt);
    var d := Custom(|t|, "a");
    StrayLayout(h, packs, country, salt, t + "a", d);
    TokenUnbordered(salt);
    StrayReversed(d, t);
  }

  lemma StrayReversed(d: Detection, t: string)
    requires d.entityType == "custom" && t != ""
    ensures var pieces := [Gap(t), Hole(d, t)] + [Gap("")];
      ReverseAll(Sanitised(pieces), EchoCandidates(pieces)).text == d.text + d.text
  {
    var pieces := [Gap(t), Hole(d, t)] + [Gap("")];
    SanitisedTwo(t, Hole(d, t), [Gap("")]);
    SanitisedLast("");
    CustomCandidate(pieces, t, 1);
    ReversedBy(Sanitised(pieces), Candidate(t, d.text, true));
    assert Repeated(t, 1) == t && Sanitised(pieces) == Repeated(t, 2);
    ReplaceRepeated(t, 2, d.text);
    assert Repeated(d.text, 1) == d.text;
  }

  /** Without equal lengths consistency is not necessary for the text as a whole: with "a", "aaa" and "aa" side by
      side, wrong originals in two holes happen to add up to the right text. */
  lemma InconsistentCanStillReturn(h: Hashing, packs: map<string, Pack>, country: string, salt: string)
    requires h.Good() && |salt| >= 6
    ensures var pieces := Layout("aaaaaa", [Custom(0, "a"), Custom(1, "aaa"), Custom(4, "aa")],
        Generator(h, packs, country, salt));
      !Consistent(pieces) && ReverseAll(Sanitised(pieces), EchoCandidates(pieces)).text == "aaaaaa"
  {
    var ds := [Custom(0, "a"), Custom(1, "aaa"), Custom(4, "aa")];
    var synth := Generator(h, packs, country, salt);
    InOrderAlready(ds);
    ThreeInARow();
    SideBySideReversed(h, packs, country, salt, "aaaaaa", ds);
    CustomConsistentExactly(h, packs, country, salt, "aaaaaa", ds);
    assert ds[0].text != ds[1].text;
    assert Repeated("aa", 1) == "aa" && Repeated("aa", 2) == "aaaa" && Repeated("aa", 3) == "aaaaaa";
  }

  lemma ThreeInARow()
    ensures var ds := [Custom(0, "a"), Custom(1, "aaa"), Custom(4, "aa")];
      SideBySide("aaaaaa", ds, 0) && Spliceable("aaaaaa", ds, 0)
  {
    var ds := [Custom(0, "a"), Custom(1, "aaa"), Custom(4, "aa")];
    assert ds[1..] == [ds[1], ds[2]] && [ds[1], ds[2]][1..] == [ds[2]] && [ds[2]][1..] == [];
    assert SideBySide("aaaaaa", [ds[2]], 4) && SideBySide("aaaaaa", [ds[1], ds[2]], 1);
    assert Spliceable("aaaaaa", [ds[2]], 4) && Spliceable("aaaaaa", [ds[1], ds[2]], 1);
  }

  /** Nor is cleanliness: with the one-name pool "zz", the text "zz" and the name "z" found at its end, the reversal
      replaces the wrong two letters of "zzz" and still returns "zz". */
  lemma UncleanCanStillReturn(h: Hashing, salt: string)
    requires h.Good()
    ensures var synth := Generator(h, map["XX" := Pack(["zz"], [], [])], "XX", salt);
      var pieces := Layout("zz", [Detection("person", 1, 2, "z", 1.0, 2, "ner", None)], synth);
      && Consistent(pieces) && !CleanEcho(pieces, EchoCandidates(pieces))
      && ReverseAll(Sanitised(pieces), EchoCandidates(pieces)).text == "zz"
  {
    var d := Detection("person", 1, 2, "z", 1.0, 2, "ner", None);
    OneNameLayout(h, salt, d);
    UncleanReturns(d);
  }

  lemma UncleanReturns(d: Detection)
    requires d.entityType == "person" && d.text == "z"
    ensures var pieces := [Gap("z"), Hole(d, "zz")] + [Gap("")];
      && Consistent(pieces) && !CleanEcho(pieces, EchoCandidates(pieces))
      && ReverseAll(Sanitised(pieces), EchoCandidates(pieces)).text == "zz"
  {
    var pieces := [Gap("z"), Hole(d, "zz")] + [Gap("")];
    StrayText(d);
    OneWordName();
    CustomCandidate(pieces, "zz", 1);
    CustomClean(pieces, "zz", 1);
    StrayInFront(pieces);
    WrongLetters();
  }

  /** The text of these pieces. */
  lemma StrayText(d: Detection)
    ensures Sanitised([Gap("z"), Hole(d, "zz")] + [Gap("")]) == "zzz"
  {
    SanitisedTwo("z", Hole(d, "zz"), [Gap("")]);
    SanitisedLast("");
  }

  /** The first two letters are replaced, not the last two. */
  lemma WrongLetters()
    ensures ReverseAll("zzz", [Candidate("zz", "z", true)]).text == "zz"
  {
    ReversedBy("zzz", Candidate("zz", "z", true));
    assert "zzz"[..2] == "zz" && "zzz"[2..] == "z" && Replace("z", "zz", "z") == "z";
  }

  lemma OneNameLayout(h: Hashing, salt: string, d: Detection)
    requires h.Good() && d.entityType == "person" && d.start == 1 && d.end == 2
    ensures Layout("zz", [d], Generator(h, map["XX" := Pack(["zz"], [], [])], "XX", salt))
         == [Gap("z"), Hole(d, "zz")] + [Gap("")]
  {
    var synth := Generator(h, map["XX" := Pack(["zz"], [], [])], "XX", salt);
    InOrderAlready([d]);
    assert synth(d.entityType, d.text) == Pick(h, Seed(salt, "person", d.text, "XX"), ["zz"]) == "zz";
    assert [d][1..] == [] && Splice("zz", [], 2, synth) == [Gap("")];
    assert Slice("zz", 0, 1) == "z";
  }

  lemma OneWordName()
    ensures Decompose("person", "z", "zz") == [Component("zz", "z", Full, None)]
  {
    assert "z"[1..] == "" && "" + ['z'] == "z";
    assert SplitFrom("", "z") == ["z"] && Split("z") == ["z"];
  }

  lemma StrayInFront(pieces: seq<Piece>)
    requires |pieces| == 3 && pieces[0] == Gap("z") && pieces[1].Hole? && pieces[2].Gap? && Sanitised(pieces) == "zzz"
    ensures !OnlySpliced(pieces, "zz")
  {
    assert OccursAt("zzz", "zz", 0);
    assert pieces[..1][1..] == [] && Sanitised([]) == "";
    assert Sanitised(pieces[..1]) == "z";
  }
}
