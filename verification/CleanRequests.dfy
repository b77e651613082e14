/** Which requests are sure of a clean echo, read off the request: its gaps, its detection texts, its synthetics and
    the surfaces registered for them, whatever the entity types. */
module CleanRequests {
  import opened Text
  import opened Detections
  import opened Merge
  import opened Substitution
  import opened ForwardProperties
  import opened Replies
  import opened RoundTrip

  /** p does not end in the beginning of s, so no occurrence of s starts in p and runs on behind it. */
  ghost predicate NoneStarts(p: string, s: string) {
    forall k :: 0 < k < |s| && k <= |p| ==> p[|p| - k..] != s[..k]
  }

  /** The marked parts are s, the others do not contain it, and none lets it start. */
  ghost predicate Clear(parts: seq<Part>, s: string) {
    forall i :: 0 <= i < |parts| ==>
      NoneStarts(parts[i].text, s) && if parts[i].marked then parts[i].text == s else !Contains(parts[i].text, s)
  }

  lemma StartsAndRunsOn(x: string, rest: string, s: string, p: int)
    requires OccursAt(x + rest, s, p) && p < |x| < p + |s|
    ensures !NoneStarts(x, s)
  {
    var k := |x| - p;
    assert x[|x| - k..] == (x + rest)[p..p + |s|][..k];
  }

  /** An occurrence that starts in the first part is all of it, and that part is marked. */
  lemma StartsInFirst(parts: seq<Part>, s: string, p: int)
    requires parts != [] && Clear(parts, s) && OccursAt(Join(parts), s, p) && p < |parts[0].text|
    ensures p == 0 && parts[0].marked
  {
    var x, rest := parts[0].text, Join(parts[1..]);
    if p + |s| <= |x| {
      assert x[p..p + |s|] == (x + rest)[p..p + |s|];
      assert OccursAt(x, s, p) && Contains(x, s);
    } else {
      StartsAndRunsOn(x, rest, s, p);
    }
  }

  lemma {:induction false} ClearOnlyAtMarks(parts: seq<Part>, s: string)
    requires s != "" && Clear(parts, s)
    ensures OnlyAtMarks(parts, s)
  {
    if parts == [] {
    } else {
      forall i | 0 <= i < |parts[1..]|
        ensures NoneStarts(parts[1..][i].text, s)
        ensures if parts[1..][i].marked then parts[1..][i].text == s else !Contains(parts[1..][i].text, s)
      {
        assert parts[1..][i] == parts[i + 1];
      }
      ClearOnlyAtMarks(parts[1..], s);
      forall p | OccursAt(Join(parts), s, p) ensures MarkedAt(parts, p) {
        if p < |parts[0].text| {
          StartsInFirst(parts, s, p);
          assert Offset(parts, 0) == 0;
        } else {
          MarkBehind(parts, s, p);
        }
      }
    }
  }

  /** Surface s stands in none of the request's own words, and none lets it start: not the gaps, not the hidden
      texts, and not the synthetics that are no longer than it. */
  ghost predicate Foreign(pieces: seq<Piece>, s: string) {
    forall i :: 0 <= i < |pieces| ==>
      match pieces[i]
      case Gap(text) => !Contains(text, s) && NoneStarts(text, s)
      case Hole(d, synthetic) =>
        && !Contains(d.text, s) && NoneStarts(d.text, s)
        && (|synthetic| <= |s| ==> NoneStarts(synthetic, s))
  }

  /** Every registered surface is foreign to the request, or stands for itself. */
  ghost predicate ForeignForms(pieces: seq<Piece>) {
    && OwnForms(pieces, EchoCandidates(pieces))
    && forall c :: c in EchoCandidates(pieces) ==>
      c.surface == "" || c.surface == c.original || Foreign(pieces, c.surface)
  }

  /** What a synthetic stands for once it has been turned back is a hidden text of the request. */
  lemma MeansHiddenText(pieces: seq<Piece>, k: nat, s: string) returns (i: int)
    requires OwnForms(pieces, EchoCandidates(pieces)) && k <= |EchoCandidates(pieces)|
    requires s in EntriesOf(pieces) && s in Meaning(EchoCandidates(pieces)[..k])
    ensures LastHole(pieces, s, i)
    ensures Meaning(EchoCandidates(pieces)[..k])[s] == pieces[i].detection.text
  {
    var cands := EchoCandidates(pieces);
    EchoCandidatesFaithful(pieces);
    assert forall c :: c in cands[..k] ==> c in cands;
    AgreedMeaning(cands[..k], s, EntriesOf(pieces)[s].original);
    LastWriteWins(pieces);
    i :| LastHole(pieces, s, i);
  }

  /** A synthetic not turned back before step k is no longer than the surface tried there. */
  lemma PendingIsShorter(pieces: seq<Piece>, k: nat, s: string)
    requires s in EntriesOf(pieces) && s != "" && k < |EchoCandidates(pieces)|
    requires s !in Meaning(EchoCandidates(pieces)[..k])
    ensures |s| <= |EchoCandidates(pieces)[k].surface|
  {
    var cands := EchoCandidates(pieces);
    EchoCandidatesFaithful(pieces);
    var c := Candidate(s, EntriesOf(pieces)[s].original, true);
    var j :| 0 <= j < |cands| && cands[j] == c;
    NotYetTried(cands, k, s);
    if j != k {
      SortedByLength(IndexOf(pieces), EntriesOf(pieces), k, j);
    }
  }

  lemma NotYetTried(cands: seq<Candidate>, k: nat, s: string)
    requires k <= |cands| && s != "" && s !in Meaning(cands[..k])
    ensures forall j :: 0 <= j < k ==> cands[j].surface != s
  {
    MeaningIsFirst(cands[..k], s);
    forall j | 0 <= j < k ensures cands[j].surface != s {
      assert cands[..k][j] in cands[..k];
    }
  }

  /** What stands in a piece when a foreign surface is tried. */
  lemma PieceClear(pieces: seq<Piece>, k: nat, i: nat)
    requires ForeignForms(pieces) && k < |EchoCandidates(pieces)| && i < |pieces|
    requires Foreign(pieces, EchoCandidates(pieces)[k].surface)
    ensures var cands := EchoCandidates(pieces);
      var part := Marked(EchoOf(pieces), Meaning(cands[..k]), cands[k])[i];
      && NoneStarts(part.text, cands[k].surface)
      && if part.marked then part.text == cands[k].surface else !Contains(part.text, cands[k].surface)
  {
    var cands := EchoCandidates(pieces);
    var meaning, c := Meaning(cands[..k]), cands[k];
    match pieces[i] {
      case Gap(text) =>
      case Hole(_, s) =>
        LastWriteWins(pieces);
        assert s in EntriesOf(pieces);
        if s in meaning {
          var j := MeansHiddenText(pieces, k, s);
        } else {
          PendingIsShorter(pieces, k, s);
          if s != c.surface && Contains(s, c.surface) {
            NothingLongerInside(s, c.surface);
          }
        }
    }
  }

  /** A request all of whose registered surfaces are foreign to it has a clean echo, names with their components
      included. */
  lemma ForeignFormsClean(pieces: seq<Piece>)
    requires ForeignForms(pieces)
    ensures CleanEcho(pieces, EchoCandidates(pieces))
  {
    var cands := EchoCandidates(pieces);
    forall k | 0 <= k < |cands| ensures CleanStep(EchoOf(pieces), Meaning(cands[..k]), cands[k]) {
      var c := cands[k];
      if c.surface != "" && c.surface != c.original {
        var parts := Marked(EchoOf(pieces), Meaning(cands[..k]), c);
        assert c in cands;
        forall i | 0 <= i < |parts|
          ensures NoneStarts(parts[i].text, c.surface)
          ensures if parts[i].marked then parts[i].text == c.surface else !Contains(parts[i].text, c.surface)
        {
          PieceClear(pieces, k, i);
        }
        ClearOnlyAtMarks(parts, c.surface);
      }
    }
  }

  /** So such a request comes back from a verbatim reply if equal synthetics stand for equal originals. */
  lemma ForeignFormsRoundTrip(
      cfg: MergeConfig, original: string, ds: seq<Detection>, exceptions: seq<ExceptionEntry>, synth: Synthesizer)
    requires forall d :: d in ds ==> d.Valid()
    requires var pieces := Layout(original, Merged(cfg, original, ds, exceptions).accepted, synth);
      ForeignForms(pieces) && Consistent(pieces)
    ensures var pieces := Layout(original, Merged(cfg, original, ds, exceptions).accepted, synth);
      ReverseAll(Sanitised(pieces), EchoCandidates(pieces)).text == original
  {
    ForeignFormsClean(Layout(original, Merged(cfg, original, ds, exceptions).accepted, synth));
    EchoRoundTrip(cfg, original, ds, exceptions, synth);
  }
}
