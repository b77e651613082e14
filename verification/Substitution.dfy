/** Forward splice of synthetics into a text, and longest-first reversal in a reply. */
module Substitution {
  import opened Results
  import opened Sequences
  import opened Text
  import opened Detections
  import opened OrderedDict
  import opened Components
  import opened SessionMap

  /** A synthetic for (entity type, original); salt and country are fixed within one request. */
  type Synthesizer = (string, string) -> string

  /** The sanitised text, as the splice lays it out. */
  datatype Piece =
    | Gap(text: string)
    | Hole(detection: Detection, synthetic: string)

  type Index = Dict<seq<Component>>

  datatype ForwardResult = ForwardResult(sanitisedText: string, componentsBySynthetic: Index, detectionCount: nat)

  predicate ByStart(a: Detection, b: Detection) { a.start <= b.start }

  /** The loop of the splice from `cursor` on; a detection that starts before the cursor is skipped. */
  function Splice(original: string, ds: seq<Detection>, cursor: int, synth: Synthesizer): seq<Piece> {
    if ds == [] then [Gap(Slice(original, cursor, |original|))]
    else if ds[0].start < cursor then Splice(original, ds[1..], cursor, synth)
    else [Gap(Slice(original, cursor, ds[0].start)), Hole(ds[0], synth(ds[0].entityType, ds[0].text))]
         + Splice(original, ds[1..], ds[0].end, synth)
  }

  function PieceText(p: Piece): string {
    match p
    case Gap(text) => text
    case Hole(_, synthetic) => synthetic
  }

  /** The text sent upstream. */
  function Sanitised(pieces: seq<Piece>): string {
    if pieces == [] then "" else PieceText(pieces[0]) + Sanitised(pieces[1..])
  }

  /** The component index after the loop: a later detection with the same synthetic overwrites. */
  function IndexOf(pieces: seq<Piece>): (index: Index)
    ensures index.Valid()
  {
    if pieces == [] then Empty()
    else
      var before := IndexOf(pieces[..|pieces| - 1]);
      match pieces[|pieces| - 1]
      case Gap(_) => before
      case Hole(d, synthetic) => before.Put(synthetic, Decompose(d.entityType, d.text, synthetic))
  }

  /** What the loop adds to the session map. */
  function EntriesOf(pieces: seq<Piece>): map<string, Entry> {
    if pieces == [] then map[]
    else
      var before := EntriesOf(pieces[..|pieces| - 1]);
      match pieces[|pieces| - 1]
      case Gap(_) => before
      case Hole(d, synthetic) => before[synthetic := Entry(d.text, synthetic, d.entityType)]
  }

  lemma SanitisedAppend(a: seq<Piece>, b: seq<Piece>)
    ensures Sanitised(a + b) == Sanitised(a) + Sanitised(b)
  {
    if a == [] {
      assert a + b == b;
    } else {
      SanitisedAppend(a[1..], b);
      assert (a + b)[1..] == a[1..] + b;
      ConcatAssociative(PieceText(a[0]), Sanitised(a[1..]), Sanitised(b));
    }
  }

  /** `pieces` and the splice of what is left make the whole splice. */
  ghost predicate SplicedUpTo(
      original: string, s: seq<Detection>, i: int, cursor: int, synth: Synthesizer, pieces: seq<Piece>)
  {
    0 <= i <= |s| && pieces + Splice(original, s[i..], cursor, synth) == Splice(original, s, 0, synth)
  }

  /** One iteration of the splice's loop. */
  lemma SpliceUnfold(
      original: string, s: seq<Detection>, i: nat, cursor: int, synth: Synthesizer, pieces: seq<Piece>)
    requires i < |s| && SplicedUpTo(original, s, i, cursor, synth, pieces)
    ensures var d := s[i];
      if d.start < cursor then SplicedUpTo(original, s, i + 1, cursor, synth, pieces)
      else
        var pair := [Gap(Slice(original, cursor, d.start)), Hole(d, synth(d.entityType, d.text))];
        SplicedUpTo(original, s, i + 1, d.end, synth, pieces + pair)
  {
    assert s[i..][1..] == s[i + 1..];
    if s[i].start >= cursor {
      var pair := [Gap(Slice(original, cursor, s[i].start)), Hole(s[i], synth(s[i].entityType, s[i].text))];
      ConcatAssociative(pieces, pair, Splice(original, s[i + 1..], s[i].end, synth));
    }
  }

  lemma SanitisedStep(pieces: seq<Piece>, gap: string, d: Detection, synthetic: string)
    ensures Sanitised(pieces + [Gap(gap), Hole(d, synthetic)]) == Sanitised(pieces) + gap + synthetic
  {
    var two := [Gap(gap), Hole(d, synthetic)];
    SanitisedAppend(pieces, two);
    assert two[1..] == [Hole(d, synthetic)];
    assert Sanitised([Hole(d, synthetic)]) == synthetic;
  }

  lemma StoresStep(pieces: seq<Piece>, gap: string, d: Detection, synthetic: string)
    ensures var next := pieces + [Gap(gap), Hole(d, synthetic)];
      && IndexOf(next) == IndexOf(pieces).Put(synthetic, Decompose(d.entityType, d.text, synthetic))
      && EntriesOf(next) == EntriesOf(pieces)[synthetic := Entry(d.text, synthetic, d.entityType)]
  {
    var next := pieces + [Gap(gap), Hole(d, synthetic)];
    var mid := pieces + [Gap(gap)];
    assert next[..|next| - 1] == mid && mid[..|mid| - 1] == pieces;
  }

  /** One iteration's effect on the index, the entries and the text. */
  lemma SpliceStep(pieces: seq<Piece>, gap: string, d: Detection, synthetic: string)
    ensures var next := pieces + [Gap(gap), Hole(d, synthetic)];
      && IndexOf(next) == IndexOf(pieces).Put(synthetic, Decompose(d.entityType, d.text, synthetic))
      && EntriesOf(next) == EntriesOf(pieces)[synthetic := Entry(d.text, synthetic, d.entityType)]
      && Sanitised(next) == Sanitised(pieces) + gap + synthetic
  {
    SanitisedStep(pieces, gap, d, synthetic);
    StoresStep(pieces, gap, d, synthetic);
  }

  lemma PutOnTop<K, V>(a: map<K, V>, b: map<K, V>, k: K, v: V)
    ensures (a + b)[k := v] == a + b[k := v]
  {
  }

  lemma SpliceEnd(pieces: seq<Piece>, gap: string)
    ensures var next := pieces + [Gap(gap)];
      IndexOf(next) == IndexOf(pieces) && EntriesOf(next) == EntriesOf(pieces)
        && Sanitised(next) == Sanitised(pieces) + gap
  {
    var next := pieces + [Gap(gap)];
    assert next[..|next| - 1] == pieces;
    SanitisedAppend(pieces, [Gap(gap)]);
    assert Sanitised([Gap(gap)]) == gap;
  }

  /** The pieces of one call: detections in start order, spliced from the beginning. */
  function Layout(original: string, ds: seq<Detection>, synth: Synthesizer): seq<Piece> {
    Splice(original, StableSort(ds, ByStart), 0, synth)
  }

  /** What the loop has built so far: text, index, and entries on top of those the map held before. */
  ghost predicate Built(
      out: string, components: Index, stored: map<string, Entry>, plain: map<string, Entry>, pieces: seq<Piece>) {
    out == Sanitised(pieces) && components == IndexOf(pieces) && stored == plain + EntriesOf(pieces)
  }

  lemma BuildMore(
      out: string, components: Index, stored: map<string, Entry>, plain: map<string, Entry>, pieces: seq<Piece>,
      gap: string, d: Detection, synthetic: string)
    requires Built(out, components, stored, plain, pieces)
    ensures Built(out + gap + synthetic, components.Put(synthetic, Decompose(d.entityType, d.text, synthetic)),
      stored[synthetic := Entry(d.text, synthetic, d.entityType)], plain, pieces + [Gap(gap), Hole(d, synthetic)])
  {
    SpliceStep(pieces, gap, d, synthetic);
    PutOnTop(plain, EntriesOf(pieces), synthetic, Entry(d.text, synthetic, d.entityType));
  }

  lemma BuildEnd(
      out: string, components: Index, stored: map<string, Entry>, plain: map<string, Entry>, original: string,
      s: seq<Detection>, cursor: int, synth: Synthesizer, pieces: seq<Piece>)
    requires Built(out, components, stored, plain, pieces) && SplicedUpTo(original, s, |s|, cursor, synth, pieces)
    ensures Built(
      out + Slice(original, cursor, |original|), components, stored, plain, Splice(original, s, 0, synth))
  {
    SpliceEnd(pieces, Slice(original, cursor, |original|));
    assert s[|s|..] == [];
  }

  /** The stores' share of one iteration: the session map first, then the index. */
  method Register(
      sessionMap: EncryptedSessionMap, components: Index, d: Detection, synthetic: string, nonce: nat, now: int)
    returns (error: Option<SessionError>, next: Index)
    requires sessionMap.Valid() && components.Valid() && SEPARATOR !in d.entityType
    modifies sessionMap
    ensures sessionMap.Valid() && sessionMap.purged == old(sessionMap.purged)
    ensures sessionMap.lastAccess == old(sessionMap.lastAccess) || sessionMap.lastAccess == now
    ensures error.Some? <==> sessionMap.purged
    ensures error.Some? ==> next == components && sessionMap.Plain() == old(sessionMap.Plain())
    ensures error == None ==>
      && next == components.Put(synthetic, Decompose(d.entityType, d.text, synthetic))
      && sessionMap.Plain() == old(sessionMap.Plain())[synthetic := Entry(d.text, synthetic, d.entityType)]
  {
    error := sessionMap.Add(Entry(d.text, synthetic, d.entityType), nonce, now);
    next := components;
    if error == None {
      next := components.Put(synthetic, Decompose(d.entityType, d.text, synthetic));
    }
  }

  method ApplySubstitution(original: string, detections: seq<Detection>, sessionMap: EncryptedSessionMap,
      synth: Synthesizer, nonces: nat -> nat, now: int)
    returns (r: Result<ForwardResult, SessionError>)
    requires sessionMap.Valid()
    requires forall d :: d in detections ==> d.Valid() && SEPARATOR !in d.entityType
    modifies sessionMap
    ensures sessionMap.Valid() && sessionMap.purged == old(sessionMap.purged)
    ensures sessionMap.lastAccess == old(sessionMap.lastAccess) || sessionMap.lastAccess == now
    ensures r.Failure? <==> sessionMap.purged && detections != []
    ensures r.Failure? ==> sessionMap.Plain() == old(sessionMap.Plain())
    ensures r.Success? ==> var pieces := Layout(original, detections, synth);
      && r.value == ForwardResult(Sanitised(pieces), IndexOf(pieces), |detections|)
      && sessionMap.Plain() == old(sessionMap.Plain()) + EntriesOf(pieces)
  {
    var sortedDets := StableSort(detections, ByStart);
    SortKeepsElements(detections, ByStart);
    SortPermutes(detections, ByStart);
    var spliced := SpliceSorted(original, sortedDets, sessionMap, synth, nonces, now);
    if spliced.Failure? {
      return Failure(spliced.error);
    }
    var (text, components) := spliced.value;
    return Success(ForwardResult(text, components, |detections|));
  }

  /** The loop over the sorted detections. */
  method SpliceSorted(original: string, sortedDets: seq<Detection>, sessionMap: EncryptedSessionMap,
      synth: Synthesizer, nonces: nat -> nat, now: int)
    returns (r: Result<(string, Index), SessionError>)
    requires sessionMap.Valid()
    requires forall d :: d in sortedDets ==> d.Valid() && SEPARATOR !in d.entityType
    modifies sessionMap
    ensures sessionMap.Valid() && sessionMap.purged == old(sessionMap.purged)
    ensures sessionMap.lastAccess == old(sessionMap.lastAccess) || sessionMap.lastAccess == now
    ensures r.Failure? <==> sessionMap.purged && sortedDets != []
    ensures r.Failure? ==> sessionMap.Plain() == old(sessionMap.Plain())
    ensures r.Success? ==> var pieces := Splice(original, sortedDets, 0, synth);
      && r.value == (Sanitised(pieces), IndexOf(pieces))
      && sessionMap.Plain() == old(sessionMap.Plain()) + EntriesOf(pieces)
  {
    var out, cursor := "", 0;
    var components: Index := Empty();
    ghost var pieces: seq<Piece> := [];
    ghost var plain := sessionMap.Plain();
    assert sortedDets[0..] == sortedDets;
    for i := 0 to |sortedDets|
      invariant sessionMap.Valid() && sessionMap.purged == old(sessionMap.purged)
      invariant sessionMap.lastAccess == old(sessionMap.lastAccess) || sessionMap.lastAccess == now
      invariant components.Valid() && Built(out, components, sessionMap.Plain(), plain, pieces)
      invariant SplicedUpTo(original, sortedDets, i, cursor, synth, pieces)
      invariant if i == 0 then cursor == 0 && sessionMap.Plain() == plain else !sessionMap.purged
    {
      var d := sortedDets[i];
      assert d in sortedDets;
      SpliceUnfold(original, sortedDets, i, cursor, synth, pieces);
      if d.start < cursor {
        assert 0 < i;
        continue;
      }
      var gap, synthetic := Slice(original, cursor, d.start), synth(d.entityType, d.text);
      ghost var pair := [Gap(gap), Hole(d, synthetic)];
      BuildMore(out, components, sessionMap.Plain(), plain, pieces, gap, d, synthetic);
      out := out + gap + synthetic;
      var error, next := Register(sessionMap, components, d, synthetic, nonces(i), now);
      if error.Some? {
        return Failure(error.value);
      }
      components := next;
      pieces := pieces + pair;
      cursor := d.end;
    }
    BuildEnd(out, components, sessionMap.Plain(), plain, original, sortedDets, cursor, synth, pieces);
    out := out + Slice(original, cursor, |original|);
    return Success((out, components));
  }

  // ----- Reverse -----

  datatype Candidate = Candidate(surface: string, original: string, isFull: bool)

  datatype Reversal = Reversal(text: string, direct: nat, component: nat)

  datatype ReverseResult = ReverseResult(text: string, directReversed: nat, componentReversed: nat,
    novelEntities: seq<string>)

  /** The sort key `-len(surface)`. */
  predicate LongerFirst(a: Candidate, b: Candidate) { |a.surface| >= |b.surface| }

  function FromComponents(comps: seq<Component>): seq<Candidate> {
    if comps == [] then []
    else FromComponents(comps[..|comps| - 1])
         + [Candidate(comps[|comps| - 1].surface, comps[|comps| - 1].originalSurface, comps[|comps| - 1].kind == Full)]
  }

  /** The candidates of one synthetic; one without components falls back to its session map entry. */
  function CandidatesFor(synthetic: string, comps: seq<Component>, entries: map<string, Entry>): seq<Candidate> {
    if comps == [] then
      if synthetic in entries then [Candidate(synthetic, entries[synthetic].original, true)] else []
    else FromComponents(comps)
  }

  function CandidatesOf(
      keys: seq<string>, values: map<string, seq<Component>>, entries: map<string, Entry>): seq<Candidate>
    requires forall k :: k in keys ==> k in values
  {
    if keys == [] then []
    else
      var last := keys[|keys| - 1];
      assert last in keys;
      CandidatesOf(keys[..|keys| - 1], values, entries) + CandidatesFor(last, values[last], entries)
  }

  function SortedCandidates(index: Index, entries: map<string, Entry>): seq<Candidate>
    requires index.Valid()
  {
    StableSort(CandidatesOf(index.keys, index.values, entries), LongerFirst)
  }

  function ReverseStep(st: Reversal, c: Candidate): Reversal {
    if c.surface != "" && Contains(st.text, c.surface) then
      Reversal(Replace(st.text, c.surface, c.original),
        st.direct + (if c.isFull then 1 else 0), st.component + (if c.isFull then 0 else 1))
    else st
  }

  function ReverseAll(response: string, candidates: seq<Candidate>): Reversal {
    if candidates == [] then Reversal(response, 0, 0)
    else ReverseStep(ReverseAll(response, candidates[..|candidates| - 1]), candidates[|candidates| - 1])
  }

  /** An entity seen in the reply that no candidate accounts for and that is still there after reversal. */
  predicate Novel(ent: string, candidates: seq<Candidate>, response: string, text: string) {
    && ent != "" && (forall c | c in candidates :: c.surface != ent)
    && Contains(text, ent) && Contains(response, ent)
  }

  function IsNovel(candidates: seq<Candidate>, response: string, text: string): string -> bool {
    ent => Novel(ent, candidates, response, text)
  }

  /** The i-th synthetic has no components. */
  ghost predicate Bare(index: Index, i: int) {
    0 <= i < |index.keys| && index.keys[i] in index.values && index.values[index.keys[i]] == []
  }

  method ComponentCandidates(comps: seq<Component>) returns (candidates: seq<Candidate>)
    ensures candidates == FromComponents(comps)
  {
    candidates := [];
    for j := 0 to |comps|
      invariant candidates == FromComponents(comps[..j])
    {
      assert comps[..j + 1][..j] == comps[..j];
      candidates := candidates + [Candidate(comps[j].surface, comps[j].originalSurface, comps[j].kind == Full)];
    }
    assert comps[..|comps|] == comps;
  }

  /** The candidates of one synthetic, with the session map consulted only for want of components. */
  method CollectFor(sessionMap: EncryptedSessionMap, synthetic: string, comps: seq<Component>, now: int)
    returns (r: Result<seq<Candidate>, SessionError>)
    requires sessionMap.Valid()
    modifies sessionMap`lastAccess
    ensures sessionMap.Valid() && sessionMap.Plain() == old(sessionMap.Plain())
    ensures sessionMap.lastAccess == old(sessionMap.lastAccess) || sessionMap.lastAccess == now
    ensures r.Failure? <==> sessionMap.purged && comps == []
    ensures r.Success? ==> r.value == CandidatesFor(synthetic, comps, sessionMap.Plain())
  {
    var candidates := ComponentCandidates(comps);
    if |comps| == 0 {
      var entry := sessionMap.Reverse(synthetic, now);
      if entry.Failure? {
        return Failure(entry.error);
      }
      if entry.value.Some? {
        candidates := candidates + [Candidate(synthetic, entry.value.value.original, true)];
      }
    }
    return Success(candidates);
  }

  lemma CandidatesStep(index: Index, entries: map<string, Entry>, i: nat)
    requires index.Valid() && i < |index.keys|
    ensures index.keys[i] in index.values
    ensures CandidatesOf(index.keys[..i + 1], index.values, entries)
         == CandidatesOf(index.keys[..i], index.values, entries)
            + CandidatesFor(index.keys[i], index.values[index.keys[i]], entries)
  {
    assert index.keys[i] in index.keys && index.keys[..i + 1][..i] == index.keys[..i];
  }

  method CollectCandidates(sessionMap: EncryptedSessionMap, index: Index, now: int)
    returns (r: Result<seq<Candidate>, SessionError>)
    requires sessionMap.Valid() && index.Valid()
    modifies sessionMap`lastAccess
    ensures sessionMap.Valid() && sessionMap.Plain() == old(sessionMap.Plain())
    ensures sessionMap.lastAccess == old(sessionMap.lastAccess) || sessionMap.lastAccess == now
    ensures r.Failure? <==> sessionMap.purged && exists i :: Bare(index, i)
    ensures r.Success? ==> r.value == CandidatesOf(index.keys, index.values, sessionMap.Plain())
  {
    var candidates := [];
    ghost var entries := sessionMap.Plain();
    for i := 0 to |index.keys|
      invariant sessionMap.Valid() && sessionMap.Plain() == entries
      invariant sessionMap.lastAccess == old(sessionMap.lastAccess) || sessionMap.lastAccess == now
      invariant candidates == CandidatesOf(index.keys[..i], index.values, entries)
      invariant sessionMap.purged ==> forall k :: 0 <= k < i ==> !Bare(index, k)
    {
      var synthetic := index.keys[i];
      CandidatesStep(index, entries, i);
      var found := CollectFor(sessionMap, synthetic, index.values[synthetic], now);
      if found.Failure? {
        assert Bare(index, i);
        return Failure(found.error);
      }
      candidates := candidates + found.value;
    }
    assert index.keys[..|index.keys|] == index.keys;
    return Success(candidates);
  }

  method ReverseSubstitution(
      response: string, sessionMap: EncryptedSessionMap, index: Index, nerEntities: seq<string>, now: int)
    returns (r: Result<ReverseResult, SessionError>)
    requires sessionMap.Valid() && index.Valid()
    modifies sessionMap`lastAccess
    ensures sessionMap.Valid()
    ensures sessionMap.lastAccess == old(sessionMap.lastAccess) || sessionMap.lastAccess == now
    ensures r.Failure? <==> sessionMap.purged && exists i :: Bare(index, i)
    ensures r.Success? ==>
      var candidates := SortedCandidates(index, sessionMap.Plain());
      var rev := ReverseAll(response, candidates);
      r.value == ReverseResult(rev.text, rev.direct, rev.component,
        Filter(nerEntities, IsNovel(candidates, response, rev.text)))
  {
    var collected := CollectCandidates(sessionMap, index, now);
    if collected.Failure? {
      return Failure(collected.error);
    }
    var candidates := StableSort(collected.value, LongerFirst);
    var text, direct, component := response, 0, 0;
    for i := 0 to |candidates|
      invariant Reversal(text, direct, component) == ReverseAll(response, candidates[..i])
    {
      var c := candidates[i];
      assert candidates[..i + 1][..i] == candidates[..i];
      if c.surface != "" && Contains(text, c.surface) {
        text := Replace(text, c.surface, c.original);
        if c.isFull {
          direct := direct + 1;
        } else {
          component := component + 1;
        }
      }
    }
    assert candidates[..|candidates|] == candidates;
    var novel := NovelEntities(nerEntities, candidates, response, text);
    return Success(ReverseResult(text, direct, component, novel));
  }

  method NovelEntities(nerEntities: seq<string>, candidates: seq<Candidate>, response: string, text: string)
    returns (novel: seq<string>)
    ensures novel == Filter(nerEntities, IsNovel(candidates, response, text))
  {
    var known := set c | c in candidates :: c.surface;
    novel := [];
    for i := 0 to |nerEntities|
      invariant novel == Filter(nerEntities[..i], IsNovel(candidates, response, text))
    {
      var ent := nerEntities[i];
      assert nerEntities[..i + 1] == nerEntities[..i] + [ent];
      FilterAppend(nerEntities[..i], ent, IsNovel(candidates, response, text));
      if ent != "" && ent !in known && !Contains(text, ent) {
        continue;
      }
      if ent != "" && ent !in known && Contains(response, ent) {
        novel := novel + [ent];
      }
    }
    assert nerEntities[..|nerEntities|] == nerEntities;
  }
}
