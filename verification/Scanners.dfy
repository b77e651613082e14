/** The digit scanners for Algerian identifiers: NIN (18 digits), NIF (15) and RIB (20, key checked). */
module Scanners {
  import opened Results
  import opened Sequences
  import opened Detections
  import opened CheckDigits

  /** `(?<!\d)(\d{n})(?!\d)` matches at p. */
  predicate MatchesAt(text: string, n: nat, p: nat) {
    && p + n <= |text|
    && (forall k :: p <= k < p + n ==> IsDigit(text[k]))
    && (p == 0 || !IsDigit(text[p - 1]))
    && (p + n == |text| || !IsDigit(text[p + n]))
  }

  /** A run of digits that no digit precedes or follows. */
  ghost predicate MaximalRun(text: string, p: int, q: int) {
    && 0 <= p < q <= |text|
    && (forall k :: p <= k < q ==> IsDigit(text[k]))
    && (p > 0 ==> !IsDigit(text[p - 1]))
    && (q < |text| ==> !IsDigit(text[q]))
  }

  /** Two maximal runs are the same run or have no character in common. */
  lemma RunsDisjoint(text: string, p: int, q: int, r: int, s: int)
    requires MaximalRun(text, p, q) && MaximalRun(text, r, s)
    ensures (p == r && q == s) || q <= r || s <= p
  {
    assert p < r ==> !(p <= r - 1 < q);
    assert r < p ==> !(r <= p - 1 < s);
  }

  /** The starts of the matches `finditer` yields from `pos` on: it resumes behind each match. */
  function MatchStarts(text: string, n: nat, pos: nat): seq<nat>
    requires n > 0
    decreases |text| - pos
  {
    if pos + n > |text| then []
    else if MatchesAt(text, n, pos) then [pos] + MatchStarts(text, n, pos + n)
    else MatchStarts(text, n, pos + 1)
  }

  /** Resuming behind a match misses none: the starts are exactly the places the pattern matches. */
  lemma {:induction false} StartExact(text: string, n: nat, pos: nat, p: nat)
    requires n > 0
    ensures p in MatchStarts(text, n, pos) <==> pos <= p && MatchesAt(text, n, p)
    decreases |text| - pos
  {
    if pos + n > |text| {
    } else {
      if MatchesAt(text, n, pos) {
        StartExact(text, n, pos + n, p);
        if pos < p < pos + n { assert IsDigit(text[p - 1]); }
      } else {
        StartExact(text, n, pos + 1, p);
      }
    }
  }

  /** Matches of length n, one behind the other, from `pos` to the end of the text. */
  ghost predicate Spaced(text: string, n: nat, pos: nat, starts: seq<nat>) {
    && (forall i :: 0 <= i < |starts| ==> pos <= starts[i] <= |text| - n)
    && (forall i, j :: 0 <= i < j < |starts| ==> starts[i] + n <= starts[j])
  }

  lemma {:induction false} StartsIncrease(text: string, n: nat, pos: nat)
    requires n > 0
    ensures Spaced(text, n, pos, MatchStarts(text, n, pos))
    decreases |text| - pos
  {
    if pos + n > |text| {
    } else {
      if MatchesAt(text, n, pos) {
        StartsIncrease(text, n, pos + n);
      } else {
        StartsIncrease(text, n, pos + 1);
      }
    }
  }

  method FindIter(text: string, n: nat) returns (starts: seq<nat>)
    requires n > 0
    ensures starts == MatchStarts(text, n, 0)
  {
    starts := [];
    var pos := 0;
    while pos + n <= |text|
      invariant starts + MatchStarts(text, n, pos) == MatchStarts(text, n, 0)
      decreases |text| - pos
    {
      if MatchesAt(text, n, pos) {
        starts := starts + [pos];
        pos := pos + n;
      } else {
        pos := pos + 1;
      }
    }
  }

  function MakeDetection(entityType: string, text: string, p: nat, n: nat, confidence: real, ruleId: string): Detection
    requires p + n <= |text|
  {
    Detection(entityType, p, p + n, text[p..p + n], confidence, 1, "structural.dz", Some(ruleId))
  }

  /** The detections for the given starts. */
  function AtStarts(
      entityType: string, text: string, starts: seq<nat>, n: nat, confidence: real, ruleId: string): seq<Detection>
    requires forall i :: 0 <= i < |starts| ==> starts[i] <= |text| - n
  {
    seq(|starts|, i requires 0 <= i < |starts| => MakeDetection(entityType, text, starts[i], n, confidence, ruleId))
  }

  /** d reports the maximal digit run at its span. */
  ghost predicate ReportsRun(text: string, n: nat, entityType: string, confidence: real, ruleId: string, d: Detection) {
    && MaximalRun(text, d.start, d.start + n)
    && d == MakeDetection(entityType, text, d.start, n, confidence, ruleId)
  }

  /** The detections at the matches of one pattern are exactly those of the maximal runs of its length. */
  lemma ReportsExact(text: string, n: nat, entityType: string, confidence: real, ruleId: string)
    requires n > 0
    ensures Spaced(text, n, 0, MatchStarts(text, n, 0))
    ensures Disjoint(AtStarts(entityType, text, MatchStarts(text, n, 0), n, confidence, ruleId))
    ensures forall d :: d in AtStarts(entityType, text, MatchStarts(text, n, 0), n, confidence, ruleId)
                   <==> ReportsRun(text, n, entityType, confidence, ruleId, d)
  {
    StartsIncrease(text, n, 0);
    forall d ensures d in AtStarts(entityType, text, MatchStarts(text, n, 0), n, confidence, ruleId)
                <==> ReportsRun(text, n, entityType, confidence, ruleId, d) {
      ReportExact(text, n, entityType, confidence, ruleId, d);
    }
  }

  lemma ReportExact(text: string, n: nat, entityType: string, confidence: real, ruleId: string, d: Detection)
    requires n > 0 && Spaced(text, n, 0, MatchStarts(text, n, 0))
    ensures d in AtStarts(entityType, text, MatchStarts(text, n, 0), n, confidence, ruleId)
       <==> ReportsRun(text, n, entityType, confidence, ruleId, d)
  {
    var starts := MatchStarts(text, n, 0);
    if d in AtStarts(entityType, text, starts, n, confidence, ruleId) {
      var i :| 0 <= i < |starts| && d == MakeDetection(entityType, text, starts[i], n, confidence, ruleId);
      StartExact(text, n, 0, starts[i]);
    }
    if ReportsRun(text, n, entityType, confidence, ruleId, d) {
      RunReported(text, n, entityType, confidence, ruleId, d);
    }
  }

  lemma RunReported(text: string, n: nat, entityType: string, confidence: real, ruleId: string, d: Detection)
    requires n > 0 && Spaced(text, n, 0, MatchStarts(text, n, 0))
      && ReportsRun(text, n, entityType, confidence, ruleId, d)
    ensures d in AtStarts(entityType, text, MatchStarts(text, n, 0), n, confidence, ruleId)
  {
    var starts := MatchStarts(text, n, 0);
    StartExact(text, n, 0, d.start);
    var i :| 0 <= i < |starts| && starts[i] == d.start;
    assert AtStarts(entityType, text, starts, n, confidence, ruleId)[i] == d;
  }

  method DetectNin(text: string) returns (out: seq<Detection>)
    ensures Disjoint(out)
    ensures forall d :: d in out <==> ReportsRun(text, 18, "national_id", 0.85, "dz.nin", d)
  {
    ReportsExact(text, 18, "national_id", 0.85, "dz.nin");
    var matches := FindIter(text, 18);
    out := [];
    for i := 0 to |matches|
      invariant out == AtStarts("national_id", text, matches[..i], 18, 0.85, "dz.nin")
    {
      out := out + [MakeDetection("national_id", text, matches[i], 18, 0.85, "dz.nin")];
    }
    assert matches[..|matches|] == matches;
  }

  method DetectNif(text: string) returns (out: seq<Detection>)
    ensures Disjoint(out)
    ensures forall d :: d in out <==> ReportsRun(text, 15, "tax_id", 0.85, "dz.nif", d)
  {
    ReportsExact(text, 15, "tax_id", 0.85, "dz.nif");
    var matches := FindIter(text, 15);
    out := [];
    for i := 0 to |matches|
      invariant out == AtStarts("tax_id", text, matches[..i], 15, 0.85, "dz.nif")
    {
      out := out + [MakeDetection("tax_id", text, matches[i], 15, 0.85, "dz.nif")];
    }
    assert matches[..|matches|] == matches;
  }

  method DetectRib(text: string) returns (out: seq<Detection>)
    ensures Disjoint(out)
    ensures forall d :: d in out <==> ReportsRun(text, 20, "bank_account", 0.99, "dz.rib", d) && RibKeyValid(d.text)
  {
    ReportsExact(text, 20, "bank_account", 0.99, "dz.rib");
    var matches := FindIter(text, 20);
    ghost var all := AtStarts("bank_account", text, matches, 20, 0.99, "dz.rib");
    out := [];
    for i := 0 to |matches|
      invariant forall d :: d in out <==> d in all[..i] && RibKeyValid(d.text)
      invariant Disjoint(out)
    {
      var d := MakeDetection("bank_account", text, matches[i], 20, 0.99, "dz.rib");
      assert all[i] == d && all[..i + 1] == all[..i] + [d];
      var rib := text[matches[i]..matches[i] + 20];
      if !RibKeyValid(rib) {
        continue;
      }
      forall k | 0 <= k < |out| ensures out[k].end <= d.start {
        assert out[k] in out;
        var m :| 0 <= m < i && all[m] == out[k];
        assert all[m].end <= all[i].start;
      }
      out := out + [d];
    }
    assert all[..|matches|] == all;
  }

  /** d reports some maximal digit run of the text. */
  ghost predicate OnRun(text: string, d: Detection) {
    MaximalRun(text, d.start, d.end) && d.Valid() && SpanMatches(text, d)
  }

  ghost predicate SpansApart(d: Detection, e: Detection) {
    d.end <= e.start || e.end <= d.start
  }

  /** What the three digit scanners report on one text never overlaps, within a scanner or across them. */
  method RunDigitScanners(text: string) returns (nins: seq<Detection>, nifs: seq<Detection>, ribs: seq<Detection>)
    ensures forall d :: d in nins || d in nifs || d in ribs ==> OnRun(text, d)
    ensures Disjoint(nins) && Disjoint(nifs) && Disjoint(ribs)
    ensures forall d, e :: d in nins && e in nifs ==> SpansApart(d, e)
    ensures forall d, e :: d in nins && e in ribs ==> SpansApart(d, e)
    ensures forall d, e :: d in nifs && e in ribs ==> SpansApart(d, e)
  {
    nins := DetectNin(text);
    nifs := DetectNif(text);
    ribs := DetectRib(text);
    forall d, e | OnRun(text, d) && OnRun(text, e) && d.end - d.start != e.end - e.start ensures SpansApart(d, e) {
      RunsDisjoint(text, d.start, d.end, e.start, e.end);
    }
  }

  /** The RIBs found in a text, as starting positions. */
  function RibStarts(text: string): seq<nat> {
    Filter(MatchStarts(text, 20, 0), KeyValidAt(text))
  }

  function KeyValidAt(text: string): nat -> bool {
    (p: nat) => p + 20 <= |text| && RibKeyValid(text[p..p + 20])
  }

  lemma RibStartsExact(text: string, p: nat)
    ensures p in RibStarts(text) <==> MaximalRun(text, p, p + 20) && RibKeyValid(text[p..p + 20])
  {
    StartExact(text, 20, 0, p);
    FilterMembers(MatchStarts(text, 20, 0), KeyValidAt(text));
  }

  /** A valid RIB is found wherever it stands, as long as no digit touches it. */
  lemma RibFound(before: string, rib: string, after: string)
    requires RibKeyValid(rib)
    requires before != "" ==> !IsDigit(before[|before| - 1])
    requires after != "" ==> !IsDigit(after[0])
    ensures |before| in RibStarts(before + rib + after)
  {
    var text, p := before + rib + after, |before|;
    assert text[p..p + 20] == rib;
    forall k | p <= k < p + 20 ensures IsDigit(text[k]) {
      assert text[k] == rib[k - p];
    }
    RibStartsExact(text, p);
  }
}
