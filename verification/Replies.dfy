/** Replies made of the reply's own characters and of forms the request introduced: what the reversal makes of them. */
module Replies {
  import opened Sequences
  import opened Text
  import opened SessionMap
  import opened Substitution

  /** A stretch of a reply: the upstream's own words, or a registered form (a synthetic, or a component of one). */
  datatype Fragment = Own(text: string) | Form(surface: string)

  /** What each surface stands for once the candidates have been tried: the first of its candidates decides. */
  function Meaning(cands: seq<Candidate>): map<string, string> {
    if cands == [] then map[] else Learn(Meaning(cands[..|cands| - 1]), cands[|cands| - 1])
  }

  function Learn(meaning: map<string, string>, c: Candidate): map<string, string> {
    if c.surface == "" || c.surface in meaning then meaning else meaning[c.surface := c.original]
  }

  function FragmentText(f: Fragment, meaning: map<string, string>): string {
    match f
    case Own(text) => text
    case Form(surface) => if surface in meaning then meaning[surface] else surface
  }

  /** The reply as it reads when the surfaces with a meaning are replaced by it. */
  function Written(reply: seq<Fragment>, meaning: map<string, string>): string {
    if reply == [] then "" else FragmentText(reply[0], meaning) + Written(reply[1..], meaning)
  }

  /** The reply's parts as they stand, with the forms c is about to replace marked. */
  function Marked(reply: seq<Fragment>, meaning: map<string, string>, c: Candidate): seq<Part> {
    seq(|reply|, i requires 0 <= i < |reply| =>
      Part(FragmentText(reply[i], meaning), reply[i] == Form(c.surface) && c.surface !in meaning))
  }

  /** Step c does no harm: its surface stands in the intermediate text exactly at its own forms, or replacing
      it changes nothing anyway. */
  ghost predicate CleanStep(reply: seq<Fragment>, meaning: map<string, string>, c: Candidate) {
    c.surface == "" || c.surface == c.original || OnlyAtMarks(Marked(reply, meaning, c), c.surface)
  }

  ghost predicate CleanReply(reply: seq<Fragment>, cands: seq<Candidate>) {
    forall k :: 0 <= k < |cands| ==> CleanStep(reply, Meaning(cands[..k]), cands[k])
  }

  // ----- What a surface means -----

  ghost predicate FirstWith(cands: seq<Candidate>, s: string, k: int) {
    0 <= k < |cands| && cands[k].surface == s && forall j :: 0 <= j < k ==> cands[j].surface != s
  }

  /** A surface means the original of its first candidate; those without a candidate mean nothing. */
  lemma {:induction false} MeaningIsFirst(cands: seq<Candidate>, s: string)
    ensures s in Meaning(cands) <==> s != "" && exists c :: c in cands && c.surface == s
    ensures forall k :: FirstWith(cands, s, k) && s != "" ==>
      s in Meaning(cands) && Meaning(cands)[s] == cands[k].original
  {
    if cands == [] {
    } else {
      var n := |cands| - 1;
      var front := cands[..n];
      MeaningIsFirst(front, s);
      assert cands == front + [cands[n]];
      forall k | FirstWith(cands, s, k) && s != ""
        ensures s in Meaning(cands) && Meaning(cands)[s] == cands[k].original
      {
        if k < n {
          assert FirstWith(front, s, k);
        } else {
          assert forall c :: c in front ==> c.surface != s;
        }
      }
    }
  }

  /** When all candidates of a surface agree, that is what it means. */
  lemma {:induction false} AgreedMeaning(cands: seq<Candidate>, s: string, o: string)
    requires forall c :: c in cands && c.surface == s ==> c.original == o
    ensures s in Meaning(cands) ==> Meaning(cands)[s] == o
  {
    if cands == [] {
    } else {
      var n := |cands| - 1;
      assert cands == cands[..n] + [cands[n]];
      AgreedMeaning(cands[..n], s, o);
    }
  }

  // ----- One step -----

  lemma {:induction false} JoinMarked(reply: seq<Fragment>, meaning: map<string, string>, c: Candidate)
    ensures Join(Marked(reply, meaning, c)) == Written(reply, meaning)
  {
    if reply == [] {
    } else {
      JoinMarked(reply[1..], meaning, c);
      assert Marked(reply, meaning, c)[1..] == Marked(reply[1..], meaning, c);
    }
  }

  lemma {:induction false} FillMarked(reply: seq<Fragment>, meaning: map<string, string>, c: Candidate)
    requires c.surface != ""
    ensures Join(Fill(Marked(reply, meaning, c), c.original)) == Written(reply, Learn(meaning, c))
  {
    if reply == [] {
    } else {
      FillMarked(reply[1..], meaning, c);
      var parts := Marked(reply, meaning, c);
      assert parts[1..] == Marked(reply[1..], meaning, c);
      JoinFilled(parts, c.original);
    }
  }

  lemma JoinFilled(parts: seq<Part>, o: string)
    requires parts != []
    ensures Join(Fill(parts, o)) == (if parts[0].marked then o else parts[0].text) + Join(Fill(parts[1..], o))
  {
    assert Fill(parts, o)[1..] == Fill(parts[1..], o);
  }

  lemma {:induction false} ReplaceSame(t: string, s: string)
    requires s != ""
    ensures Replace(t, s, s) == t
  {
    if |t| < |s| {
    } else if t[..|s|] == s {
      ReplaceSame(t[|s|..], s);
    } else {
      ReplaceSame(t[1..], s);
    }
  }

  lemma {:induction false} LearnSame(reply: seq<Fragment>, meaning: map<string, string>, c: Candidate)
    requires c.surface == c.original
    ensures Written(reply, Learn(meaning, c)) == Written(reply, meaning)
  {
    if reply == [] {
    } else {
      LearnSame(reply[1..], meaning, c);
    }
  }

  /** `if surface in text` makes no difference to the text. */
  lemma StepReplaces(st: Reversal, c: Candidate)
    ensures ReverseStep(st, c).text == if c.surface == "" then st.text else Replace(st.text, c.surface, c.original)
  {
    if c.surface != "" && !Contains(st.text, c.surface) {
      ReplaceAbsent(st.text, c.surface, c.original);
    }
  }

  lemma CleanStepAdvances(reply: seq<Fragment>, meaning: map<string, string>, st: Reversal, c: Candidate)
    requires st.text == Written(reply, meaning) && CleanStep(reply, meaning, c)
    ensures ReverseStep(st, c).text == Written(reply, Learn(meaning, c))
  {
    StepReplaces(st, c);
    if c.surface == "" {
    } else if c.surface == c.original {
      LearnSame(reply, meaning, c);
      ReplaceSame(st.text, c.surface);
    } else {
      JoinMarked(reply, meaning, c);
      FillMarked(reply, meaning, c);
      ReplaceFillsMarks(Marked(reply, meaning, c), c.surface, c.original);
    }
  }

  lemma OnlyCleanStepsAdvance(reply: seq<Fragment>, meaning: map<string, string>, st: Reversal, c: Candidate)
    requires st.text == Written(reply, meaning) && Apart(st.text, c.surface)
    ensures ReverseStep(st, c).text == Written(reply, Learn(meaning, c)) <==> CleanStep(reply, meaning, c)
  {
    if CleanStep(reply, meaning, c) {
      CleanStepAdvances(reply, meaning, st, c);
    } else {
      var parts := Marked(reply, meaning, c);
      StepReplaces(st, c);
      JoinMarked(reply, meaning, c);
      FillMarked(reply, meaning, c);
      forall i | 0 <= i < |parts| && parts[i].marked ensures parts[i].text == c.surface {
      }
      ReplaceFillsExactly(parts, c.surface, c.original);
    }
  }

  // ----- Whole replies -----

  /** A clean reply: every form in it, full or component, comes back as what it means, and nothing else changes. */
  lemma {:induction false} CleanReplyReversed(reply: seq<Fragment>, cands: seq<Candidate>)
    requires CleanReply(reply, cands)
    ensures ReverseAll(Written(reply, map[]), cands).text == Written(reply, Meaning(cands))
  {
    if cands == [] {
    } else {
      var n := |cands| - 1;
      forall k | 0 <= k < n ensures CleanStep(reply, Meaning(cands[..n][..k]), cands[..n][k]) {
        assert cands[..n][..k] == cands[..k];
      }
      CleanReplyReversed(reply, cands[..n]);
      CleanStepAdvances(reply, Meaning(cands[..n]), ReverseAll(Written(reply, map[]), cands[..n]), cands[n]);
    }
  }

  /** The reversal is where it should be after k candidates. */
  ghost predicate OnCourse(reply: seq<Fragment>, cands: seq<Candidate>, k: nat)
    requires k <= |cands|
  {
    ReverseAll(Written(reply, map[]), cands[..k]).text == Written(reply, Meaning(cands[..k]))
  }

  /** Where no two occurrences of a surface overlap when it is tried, the reversal is on course all the way if
      and only if every step is clean. */
  lemma CleanExactly(reply: seq<Fragment>, cands: seq<Candidate>)
    requires forall k :: 0 <= k < |cands| ==> Apart(Written(reply, Meaning(cands[..k])), cands[k].surface)
    ensures (forall k :: 0 <= k <= |cands| ==> OnCourse(reply, cands, k)) <==> CleanReply(reply, cands)
  {
    if CleanReply(reply, cands) {
      forall k | 0 <= k <= |cands| ensures OnCourse(reply, cands, k) {
        forall j | 0 <= j < k ensures CleanStep(reply, Meaning(cands[..k][..j]), cands[..k][j]) {
          assert cands[..k][..j] == cands[..j];
        }
        CleanReplyReversed(reply, cands[..k]);
      }
    }
    if forall k :: 0 <= k <= |cands| ==> OnCourse(reply, cands, k) {
      forall k | 0 <= k < |cands| ensures CleanStep(reply, Meaning(cands[..k]), cands[k]) {
        assert cands[..k + 1][..k] == cands[..k];
        assert OnCourse(reply, cands, k) && OnCourse(reply, cands, k + 1);
        OnlyCleanStepsAdvance(reply, Meaning(cands[..k]), ReverseAll(Written(reply, map[]), cands[..k]), cands[k]);
      }
    }
  }

  // ----- Which candidate comes first -----

  function Reading(s: string): Candidate -> bool {
    (c: Candidate) => c.surface == s
  }

  lemma {:induction false} FirstOfFilter(cands: seq<Candidate>, s: string, k: nat)
    requires FirstWith(cands, s, k)
    ensures Filter(cands, Reading(s)) != [] && Filter(cands, Reading(s))[0] == cands[k]
  {
    if k == 0 {
    } else {
      assert forall i :: 0 <= i < |cands[1..]| ==> cands[1..][i] == cands[i + 1];
      FirstOfFilter(cands[1..], s, k - 1);
    }
  }

  lemma {:induction false} FirstReading(cands: seq<Candidate>, s: string) returns (k: nat)
    requires Filter(cands, Reading(s)) != []
    ensures FirstWith(cands, s, k)
  {
    if cands[0].surface == s {
      k := 0;
    } else {
      var j := FirstReading(cands[1..], s);
      assert forall i :: 0 <= i < |cands[1..]| ==> cands[1..][i] == cands[i + 1];
      k := j + 1;
    }
  }

  /** Sorting by length leaves the candidates of one surface in the order they were collected. */
  lemma SortKeepsReadings(cands: seq<Candidate>, s: string)
    ensures Filter(StableSort(cands, LongerFirst), Reading(s)) == Filter(cands, Reading(s))
  {
    LongerFirstPreorder();
    var g := Candidate(s, "", true);
    SortStable(cands, LongerFirst, g);
    var sorted, ties := StableSort(cands, LongerFirst), (y: Candidate) => Ties(LongerFirst, g, y);
    assert Filter(sorted, ties) == Filter(cands, ties);
    FilterFilter(sorted, ties, Reading(s));
    FilterFilter(cands, ties, Reading(s));
  }

  /** The candidates of the i-th synthetic. */
  function OwnCandidates(index: Index, entries: map<string, Entry>, i: nat): seq<Candidate>
    requires index.Valid() && i < |index.keys|
  {
    assert index.keys[i] in index.keys;
    CandidatesFor(index.keys[i], index.values[index.keys[i]], entries)
  }

  /** The candidates of the first n synthetics that read s, in the order they are collected. */
  function CollectedTo(index: Index, entries: map<string, Entry>, s: string, n: nat): seq<Candidate>
    requires index.Valid() && n <= |index.keys|
  {
    Filter(CandidatesOf(index.keys[..n], index.values, entries), Reading(s))
  }

  lemma CollectedStep(index: Index, entries: map<string, Entry>, s: string, n: nat)
    requires index.Valid() && n < |index.keys|
    ensures CollectedTo(index, entries, s, n + 1)
         == CollectedTo(index, entries, s, n) + Filter(OwnCandidates(index, entries, n), Reading(s))
  {
    CandidatesStep(index, entries, n);
    FilterConcat(
      CandidatesOf(index.keys[..n], index.values, entries), OwnCandidates(index, entries, n), Reading(s));
  }

  ghost predicate NoneReads(cands: seq<Candidate>, s: string) {
    forall c :: c in cands ==> c.surface != s
  }

  lemma NothingCollected(index: Index, entries: map<string, Entry>, s: string)
    requires index.Valid()
    ensures CollectedTo(index, entries, s, 0) == []
  {
    assert index.keys[..0] == [];
    assert CandidatesOf([], index.values, entries) == [];
  }

  lemma NoneFiltered(cands: seq<Candidate>, s: string)
    requires NoneReads(cands, s)
    ensures Filter(cands, Reading(s)) == []
  {
    FilterNone(cands, Reading(s));
  }

  lemma {:induction false} NoneCollected(index: Index, entries: map<string, Entry>, s: string, n: nat)
    requires index.Valid() && n <= |index.keys|
    requires forall j: nat :: j < n ==> NoneReads(OwnCandidates(index, entries, j), s)
    ensures CollectedTo(index, entries, s, n) == []
  {
    if n == 0 {
      NothingCollected(index, entries, s);
    } else {
      assert CollectedTo(index, entries, s, n - 1) == [] by {
        NoneCollected(index, entries, s, n - 1);
      }
      assert Filter(OwnCandidates(index, entries, n - 1), Reading(s)) == [] by {
        NoneFiltered(OwnCandidates(index, entries, n - 1), s);
      }
      assert CollectedTo(index, entries, s, n) == [] + [] by {
        CollectedStep(index, entries, s, n - 1);
      }
    }
  }

  lemma {:induction false} CollectedGrows(index: Index, entries: map<string, Entry>, s: string, m: nat, n: nat)
    requires index.Valid() && m <= n <= |index.keys|
    ensures CollectedTo(index, entries, s, m) <= CollectedTo(index, entries, s, n)
    decreases n
  {
    if m == n {
    } else {
      CollectedGrows(index, entries, s, m, n - 1);
      CollectedStep(index, entries, s, n - 1);
    }
  }

  /** When several synthetics share a surface, the one spliced first decides what it means; within one synthetic its
      first component does. */
  lemma FirstSplicedDecides(index: Index, entries: map<string, Entry>, s: string, i: nat, m: nat)
    requires index.Valid() && i < |index.keys| && s != ""
    requires forall j: nat :: j < i ==> NoneReads(OwnCandidates(index, entries, j), s)
    requires FirstWith(OwnCandidates(index, entries, i), s, m)
    ensures var meaning := Meaning(SortedCandidates(index, entries));
      s in meaning && meaning[s] == OwnCandidates(index, entries, i)[m].original
  {
    var all, sorted := CandidatesOf(index.keys, index.values, entries), SortedCandidates(index, entries);
    NoneCollected(index, entries, s, i);
    CollectedStep(index, entries, s, i);
    CollectedGrows(index, entries, s, i + 1, |index.keys|);
    assert index.keys[..|index.keys|] == index.keys;
    FirstOfFilter(OwnCandidates(index, entries, i), s, m);
    SortKeepsReadings(all, s);
    var k := FirstReading(sorted, s);
    FirstOfFilter(sorted, s, k);
    MeaningIsFirst(sorted, s);
  }

  /** A synthetic without components stands for what the session map holds for it. */
  lemma FallbackMeans(index: Index, entries: map<string, Entry>, s: string)
    requires index.Valid() && index.keys == [s] && index.values[s] == [] && s != ""
    ensures s in Meaning(SortedCandidates(index, entries)) <==> s in entries
    ensures s in entries ==> Meaning(SortedCandidates(index, entries))[s] == entries[s].original
  {
    var cands := CandidatesFor(s, [], entries);
    assert [s][..0] == [] && CandidatesOf([s], index.values, entries) == cands;
    SortOfSorted(cands, LongerFirst);
    MeaningIsFirst(cands, s);
    if s in entries {
      assert FirstWith(cands, s, 0);
    }
  }

  // ----- What else the reversal reports -----

  /** The k-th candidate stood in the text when its turn came. */
  ghost predicate StoodAt(response: string, cands: seq<Candidate>, k: int) {
    0 <= k < |cands| && cands[k].surface != ""
    && Contains(ReverseAll(response, cands[..k]).text, cands[k].surface)
  }

  ghost function Standing(response: string, cands: seq<Candidate>, full: bool): set<nat> {
    set k: nat | k < |cands| && cands[k].isFull == full && StoodAt(response, cands, k)
  }

  /** The two counters say how many full forms, and how many components, stood in the text when they were tried. */
  lemma {:induction false} CountersExact(response: string, cands: seq<Candidate>)
    ensures ReverseAll(response, cands).direct == |Standing(response, cands, true)|
    ensures ReverseAll(response, cands).component == |Standing(response, cands, false)|
  {
    if cands == [] {
      assert Standing(response, cands, true) == {} && Standing(response, cands, false) == {};
    } else {
      CountersExact(response, cands[..|cands| - 1]);
      StandingMore(response, cands, true);
      StandingMore(response, cands, false);
    }
  }

  lemma StandingMore(response: string, cands: seq<Candidate>, full: bool)
    requires cands != []
    ensures var n := |cands| - 1;
      |Standing(response, cands, full)| == |Standing(response, cands[..n], full)|
        + if cands[n].isFull == full && StoodAt(response, cands, n) then 1 else 0
  {
    var n := |cands| - 1;
    var before := Standing(response, cands[..n], full);
    forall k: nat | k < n ensures cands[..n][..k] == cands[..k] && cands[..n][k] == cands[k] {
    }
    assert n !in before;
    assert Standing(response, cands, full)
      == if cands[n].isFull == full && StoodAt(response, cands, n) then before + {n} else before;
  }

  /** An entity is reported as novel if and only if it was asked about, is accounted for by no candidate, and stands in
      the reply both as it came and as it goes out: what the reversal removed is never reported. */
  lemma NovelExactly(asked: seq<string>, cands: seq<Candidate>, response: string, ent: string)
    ensures var text := ReverseAll(response, cands).text;
      ent in Filter(asked, IsNovel(cands, response, text)) <==>
        && ent in asked && ent != "" && (forall c :: c in cands ==> c.surface != ent)
        && Contains(response, ent) && Contains(text, ent)
  {
    FilterMember(asked, IsNovel(cands, response, ReverseAll(response, cands).text), ent);
  }

  // ----- What longest-first buys -----

  lemma LongerFirstPreorder()
    ensures TotalPreorder(LongerFirst)
  {
  }

  lemma SortedByLength(index: Index, entries: map<string, Entry>, i: nat, j: nat)
    requires index.Valid() && i < j < |SortedCandidates(index, entries)|
    ensures |SortedCandidates(index, entries)[i].surface| >= |SortedCandidates(index, entries)[j].surface|
  {
    LongerFirstPreorder();
    SortSorts(CandidatesOf(index.keys, index.values, entries), LongerFirst);
    assert LongerFirst(SortedCandidates(index, entries)[i], SortedCandidates(index, entries)[j]);
  }

  /** No candidate is tried before one whose surface properly contains its own. */
  lemma LongestFirst(index: Index, entries: map<string, Entry>, i: nat, j: nat)
    requires index.Valid() && i < j < |SortedCandidates(index, entries)|
    requires Contains(SortedCandidates(index, entries)[j].surface, SortedCandidates(index, entries)[i].surface)
    ensures SortedCandidates(index, entries)[i].surface == SortedCandidates(index, entries)[j].surface
  {
    SortedByLength(index, entries, i, j);
    var cands := SortedCandidates(index, entries);
    NothingLongerInside(cands[j].surface, cands[i].surface);
  }

  lemma NothingLongerInside(s: string, x: string)
    requires Contains(s, x) && |x| >= |s|
    ensures x == s
  {
    var p :| 0 <= p <= |s| && OccursAt(s, x, p);
    assert s[p..p + |x|] == s;
  }

  lemma ReplaceWhole(s: string, o: string)
    requires s != ""
    ensures Replace(s, s, o) == o
  {
    assert s[..|s|] == s && s[|s|..] == "";
    assert Replace("", s, o) == "";
  }

  lemma {:induction false} LongerLeaveAlone(cands: seq<Candidate>, s: string)
    requires forall i :: 0 <= i < |cands| ==> |cands[i].surface| >= |s| && cands[i].surface != s
    ensures ReverseAll(s, cands).text == s
  {
    if cands == [] {
    } else {
      var c := cands[|cands| - 1];
      LongerLeaveAlone(cands[..|cands| - 1], s);
      if Contains(s, c.surface) { NothingLongerInside(s, c.surface); }
    }
  }

  lemma {:induction false} AbsentLeaveAlone(cands: seq<Candidate>, t: string)
    requires forall c :: c in cands ==> c.surface == "" || c.surface == c.original || !Contains(t, c.surface)
    ensures ReverseAll(t, cands).text == t
  {
    if cands == [] {
    } else {
      var n := |cands| - 1;
      assert cands == cands[..n] + [cands[n]];
      AbsentLeaveAlone(cands[..n], t);
      if cands[n].surface != "" && cands[n].surface == cands[n].original {
        ReplaceSame(t, cands[n].surface);
      }
    }
  }

  lemma {:induction false} ReverseInTwo(t: string, a: seq<Candidate>, b: seq<Candidate>)
    ensures ReverseAll(t, a + b).text == ReverseAll(ReverseAll(t, a).text, b).text
  {
    if b == [] {
      assert a + b == a;
    } else {
      var n := |b| - 1;
      assert (a + b)[..|a + b| - 1] == a + b[..n];
      ReverseInTwo(t, a, b[..n]);
    }
  }

  /** A reply that is exactly one registered surface (a full name, a first name, an honorific form) reaches
      that surface's own candidate untouched, becomes its original, and is then up to the shorter candidates. */
  lemma SurfaceReplyReversed(index: Index, entries: map<string, Entry>, k: nat)
    requires index.Valid() && k < |SortedCandidates(index, entries)|
    requires FirstWith(SortedCandidates(index, entries), SortedCandidates(index, entries)[k].surface, k)
    requires SortedCandidates(index, entries)[k].surface != ""
    ensures var cands := SortedCandidates(index, entries);
      ReverseAll(cands[k].surface, cands).text == ReverseAll(cands[k].original, cands[k + 1..]).text
  {
    forall i | 0 <= i < k
      ensures |SortedCandidates(index, entries)[i].surface| >= |SortedCandidates(index, entries)[k].surface|
    {
      SortedByLength(index, entries, i, k);
    }
    OwnCandidateReached(SortedCandidates(index, entries), k);
  }

  lemma OwnCandidateReached(cands: seq<Candidate>, k: nat)
    requires k < |cands| && FirstWith(cands, cands[k].surface, k) && cands[k].surface != ""
    requires forall i :: 0 <= i < k ==> |cands[i].surface| >= |cands[k].surface|
    ensures ReverseAll(cands[k].surface, cands).text == ReverseAll(cands[k].original, cands[k + 1..]).text
  {
    var c, front := cands[k], cands[..k + 1];
    LongerLeaveAlone(cands[..k], c.surface);
    assert front[..k] == cands[..k] && cands == front + cands[k + 1..];
    ReplaceWhole(c.surface, c.original);
    StepReplaces(ReverseAll(c.surface, cands[..k]), c);
    ReverseInTwo(c.surface, front, cands[k + 1..]);
  }

  /** So the caller reads that original, if none of the shorter surfaces stands in it. */
  lemma SurfaceReplyRead(index: Index, entries: map<string, Entry>, k: nat)
    requires index.Valid() && k < |SortedCandidates(index, entries)|
    requires FirstWith(SortedCandidates(index, entries), SortedCandidates(index, entries)[k].surface, k)
    requires var cands := SortedCandidates(index, entries);
      cands[k].surface != "" && forall i :: k < i < |cands| ==>
        cands[i].surface == "" || cands[i].surface == cands[i].original
          || !Contains(cands[k].original, cands[i].surface)
    ensures var cands := SortedCandidates(index, entries);
      ReverseAll(cands[k].surface, cands).text == cands[k].original
  {
    SurfaceReplyReversed(index, entries, k);
    var rest := SortedCandidates(index, entries)[k + 1..];
    assert forall i :: 0 <= i < |rest| ==> rest[i] == SortedCandidates(index, entries)[k + 1 + i];
    AbsentLeaveAlone(rest, SortedCandidates(index, entries)[k].original);
  }
}
