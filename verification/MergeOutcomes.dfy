/** Where each detection ends up, said with the fields of the detection, the exceptions and the thresholds. */
module MergeOutcomes {
  import opened Results
  import opened Sequences
  import opened Detections
  import opened Merge
  import opened MergeProperties
  import opened MergeOrder

  // ----- The four outcomes -----

  /** The span lies inside the text, is not empty, and reads what the detection says. */
  predicate ReadsThere(original: string, d: Detection) {
    0 <= d.start < d.end <= |original| && original[d.start..d.end] == d.text
  }

  predicate Named(s: Option<string>) { s.Some? && s.value != "" }

  /** Some field of the entry says something. */
  predicate SaysSomething(e: ExceptionEntry) {
    Named(e.ruleId) || Named(e.entityType) || Named(e.textMatch)
  }

  /** Every field the entry gives agrees with d. */
  predicate AgreesWith(e: ExceptionEntry, d: Detection) {
    && (e.ruleId == None || e.ruleId == d.ruleId)
    && (e.entityType == None || e.entityType == Some(d.entityType))
    && (e.textMatch == None || e.textMatch == Some(d.text))
  }

  lemma AppliesExactly(e: ExceptionEntry, d: Detection)
    ensures ExceptionApplies(e, d) <==> SaysSomething(e) && AgreesWith(e, d)
  {
  }

  ghost predicate Excused(exceptions: seq<ExceptionEntry>, d: Detection) {
    exists e :: e in exceptions && SaysSomething(e) && AgreesWith(e, d)
  }

  lemma SuppressedExactly(exceptions: seq<ExceptionEntry>, d: Detection)
    ensures Suppressed(exceptions, d) <==> Excused(exceptions, d)
  {
    forall e | e in exceptions ensures ExceptionApplies(e, d) <==> SaysSomething(e) && AgreesWith(e, d) {
      AppliesExactly(e, d);
    }
  }

  /** The confidence a detection of that tier has to reach; tiers outside the three take the third's. */
  function Needed(cfg: MergeConfig, tier: int): real {
    match tier
    case 1 => cfg.tier1Threshold
    case 2 => cfg.tier2Threshold
    case _ => cfg.tier3Threshold
  }

  /** A detection is span-invalid if and only if it does not read there; otherwise suppressed if and only if an entry
      that says something agrees with it in every field it gives; otherwise below threshold if and only if it is less
      confident than its tier needs; and otherwise it goes on to overlap resolution. */
  lemma OutcomeExactly(
      cfg: MergeConfig, original: string, ds: seq<Detection>, exceptions: seq<ExceptionEntry>, d: Detection)
    ensures var r := Merged(cfg, original, ds, exceptions);
      && (d in r.spanInvalid <==> d in ds && !ReadsThere(original, d))
      && (d in r.exceptionSuppressed <==> d in ds && ReadsThere(original, d) && Excused(exceptions, d))
      && (d in r.belowThreshold <==>
            d in ds && ReadsThere(original, d) && !Excused(exceptions, d) && d.confidence < Needed(cfg, d.tier))
      && (d in Passing(cfg, original, ds, exceptions) <==>
            d in ds && ReadsThere(original, d) && !Excused(exceptions, d) && d.confidence >= Needed(cfg, d.tier))
  {
    SuppressedExactly(exceptions, d);
    FilterMember(ds, Matches(original), d);
    FilterMember(ds, Not(Matches(original)), d);
    FilterMember(Validated(original, ds), Excepted(exceptions), d);
    FilterMember(Validated(original, ds), Not(Excepted(exceptions)), d);
    FilterMember(Kept(original, ds, exceptions), Meets(cfg), d);
    FilterMember(Kept(original, ds, exceptions), Not(Meets(cfg)), d);
  }

  // ----- Exceptions -----

  /** An entry that gives a text, a rule id or a type suppresses nothing with another one. */
  lemma OthersNotSuppressed(
      cfg: MergeConfig, original: string, ds: seq<Detection>, exceptions: seq<ExceptionEntry>, d: Detection)
    requires forall e :: e in exceptions ==>
      || (e.textMatch.Some? && e.textMatch.value != d.text)
      || (e.entityType.Some? && e.entityType.value != d.entityType)
      || (e.ruleId.Some? && e.ruleId != d.ruleId)
    ensures d !in Merged(cfg, original, ds, exceptions).exceptionSuppressed
  {
    OutcomeExactly(cfg, original, ds, exceptions, d);
  }

  /** Entries that say nothing suppress nothing: the result is that of no entries at all. */
  lemma EmptyEntriesIgnored(
      cfg: MergeConfig, original: string, ds: seq<Detection>, exceptions: seq<ExceptionEntry>)
    requires forall e :: e in exceptions ==>
      (e.ruleId == None || e.ruleId == Some("")) && (e.entityType == None || e.entityType == Some(""))
      && (e.textMatch == None || e.textMatch == Some(""))
    ensures Merged(cfg, original, ds, exceptions) == Merged(cfg, original, ds, [])
    ensures Merged(cfg, original, ds, exceptions).exceptionSuppressed == []
  {
    var valid := Validated(original, ds);
    forall d ensures !Suppressed(exceptions, d) && !Suppressed([], d) {
      SuppressedExactly(exceptions, d);
      SuppressedExactly([], d);
    }
    FilterNone(valid, Excepted(exceptions));
    FilterNone(valid, Excepted([]));
    FilterAll(valid, Not(Excepted(exceptions)));
    FilterAll(valid, Not(Excepted([])));
  }

  /** One entry that gives only a text suppresses exactly the span-valid detections of that text. */
  lemma TextEntrySuppresses(cfg: MergeConfig, original: string, ds: seq<Detection>, text: string, d: Detection)
    requires text != ""
    ensures d in Merged(cfg, original, ds, [ExceptionEntry(None, None, Some(text))]).exceptionSuppressed
       <==> d in ds && ReadsThere(original, d) && d.text == text
  {
    var e := ExceptionEntry(None, None, Some(text));
    OutcomeExactly(cfg, original, ds, [e], d);
    assert e in [e];
  }

  /** narrow gives every field wide gives, with the same value, and maybe more. */
  predicate Narrows(narrow: ExceptionEntry, wide: ExceptionEntry) {
    && (wide.ruleId.Some? ==> narrow.ruleId == wide.ruleId)
    && (wide.entityType.Some? ==> narrow.entityType == wide.entityType)
    && (wide.textMatch.Some? ==> narrow.textMatch == wide.textMatch)
  }

  /** Giving an entry that says something one more field never suppresses more. */
  lemma NarrowerSuppressesLess(
      cfg: MergeConfig, original: string, ds: seq<Detection>, exceptions: seq<ExceptionEntry>, i: nat,
      narrow: ExceptionEntry, d: Detection)
    requires i < |exceptions| && Narrows(narrow, exceptions[i]) && SaysSomething(exceptions[i])
    requires d in Merged(cfg, original, ds, exceptions[i := narrow]).exceptionSuppressed
    ensures d in Merged(cfg, original, ds, exceptions).exceptionSuppressed
  {
    OutcomeExactly(cfg, original, ds, exceptions[i := narrow], d);
    OutcomeExactly(cfg, original, ds, exceptions, d);
    var e :| e in exceptions[i := narrow] && SaysSomething(e) && AgreesWith(e, d);
    if e == narrow {
      assert AgreesWith(exceptions[i], d);
    } else {
      assert e in exceptions;
    }
  }

  /** An entry that says nothing is the exception: it suppresses nothing, and with a field more it can. */
  lemma EmptyEntryWidens(cfg: MergeConfig)
    ensures var d := Seen(0, 3, 0.90, "ner");
      var empty, text := ExceptionEntry(None, None, None), ExceptionEntry(None, None, Some("xxx"));
      && Narrows(text, empty)
      && d !in Merged(cfg, "xxx", [d], [empty]).exceptionSuppressed
      && d in Merged(cfg, "xxx", [d], [text]).exceptionSuppressed
  {
    var d := Seen(0, 3, 0.90, "ner");
    var empty := ExceptionEntry(None, None, None);
    assert d.text == "xxx" && "xxx"[0..3] == "xxx";
    OutcomeExactly(cfg, "xxx", [d], [empty], d);
    TextEntrySuppresses(cfg, "xxx", [d], "xxx", d);
  }

  // ----- Thresholds and confidence -----

  /** Nothing accepted is less confident than its tier needs, and nothing below threshold is confident enough. */
  lemma ThresholdsKept(
      cfg: MergeConfig, original: string, ds: seq<Detection>, exceptions: seq<ExceptionEntry>, d: Detection)
    ensures var r := Merged(cfg, original, ds, exceptions);
      && (d in r.accepted && d.tier == 1 ==> d.confidence >= cfg.tier1Threshold)
      && (d in r.accepted && d.tier == 2 ==> d.confidence >= cfg.tier2Threshold)
      && (d in r.accepted && d.tier == 3 ==> d.confidence >= cfg.tier3Threshold)
      && (d in r.belowThreshold && d.tier == 1 ==> d.confidence < cfg.tier1Threshold)
      && (d in r.belowThreshold && d.tier == 2 ==> d.confidence < cfg.tier2Threshold)
      && (d in r.belowThreshold && d.tier == 3 ==> d.confidence < cfg.tier3Threshold)
  {
    OutcomeExactly(cfg, original, ds, exceptions, d);
    AcceptedPassAgain(cfg, original, ds, exceptions);
  }

  /** Someone else saw the very same span. */
  predicate SeenByAnother(t: seq<Detection>, w: Detection) {
    exists other | other in t :: other.start == w.start && other.end == w.end && other.detector != w.detector
  }

  /** What is accepted is its origin with 0.05 more confidence, up to 0.99 and never less, if another detector passes
      the same span, and its origin unchanged otherwise. */
  lemma ConfidenceExactly(
      cfg: MergeConfig, original: string, ds: seq<Detection>, exceptions: seq<ExceptionEntry>, k: nat)
    requires k < |Clusters(Passing(cfg, original, ds, exceptions))|
    ensures var t := Passing(cfg, original, ds, exceptions);
      var o := Origin(Clusters(t)[k]);
      var raised := Lesser(0.99, o.confidence + 0.05);
      k < |Merged(cfg, original, ds, exceptions).accepted|
      && Merged(cfg, original, ds, exceptions).accepted[k]
         == if SeenByAnother(t, o) && raised > o.confidence then o.(confidence := raised) else o
  {
    PassingMembers(cfg, original, ds, exceptions);
    WinnerIsBoosted(Passing(cfg, original, ds, exceptions), k);
  }

  function Lesser(a: real, b: real): real { if a < b then a else b }

  /** On one span and in one tier, structural beats NER, NER beats contextual, and contextual beats any other. */
  lemma PrecedenceAtEqualTier(a: Detection, b: Detection, cluster: seq<Detection>)
    requires a.start == b.start && a.end == b.end && a.tier == b.tier
    requires Stronger(a.detector, b.detector)
    requires a in cluster && b in cluster
    ensures Origin(cluster) != b
  {
    WinnerFromCluster(cluster);
  }

  predicate Stronger(a: string, b: string) {
    || (a in {"structural", "structural.dz"} && b !in {"structural", "structural.dz"})
    || (a == "ner" && b !in {"structural", "structural.dz", "ner"})
    || (a == "contextual" && b !in {"structural", "structural.dz", "ner", "contextual"})
  }
}
