/** Retrieval: all visible Tier 1 and 2 rules, and the best of the caller's own Tier 3 rules. */
module Retrieval {
  import opened Sequences
  import opened Text
  import opened Rules

  datatype RuleSnippet = RuleSnippet(ruleId: string, tier: int, entityType: string, description: string)

  function ToSnippet(r: Rule): RuleSnippet {
    RuleSnippet(r.ruleId, r.tier, r.entityType, r.description)
  }

  function Snippets(rules: seq<Rule>): seq<RuleSnippet> {
    seq(|rules|, i requires 0 <= i < |rules| => ToSnippet(rules[i]))
  }

  function Tier(t: int): Rule -> bool {
    (r: Rule) => r.tier == t
  }

  function JoinWords(words: seq<string>): string {
    if words == [] then "" else if |words| == 1 then words[0] else words[0] + " " + JoinWords(words[1..])
  }

  function Haystack(lower: Lower, r: Rule): string {
    lower(JoinWords([r.description] + r.keywords))
  }

  /** How many different terms occur in the description and keywords. */
  function KeywordScore(lower: Lower, terms: set<string>): Rule -> nat {
    (r: Rule) => |set t | t in terms && Contains(Haystack(lower, r), t)|
  }

  function TermSet(terms: seq<string>): set<string> {
    set t | t in terms
  }

  method RankByKeyword(lower: Lower, terms: seq<string>, rules: seq<Rule>) returns (ranked: seq<Rule>)
    ensures ranked == Ranked(KeywordScore(lower, TermSet(terms)), rules)
  {
    var termSet := TermSet(terms);
    var scored := CollectPositive(KeywordScore(lower, termSet), rules);
    ranked := RulesOf(StableSort(scored, HigherFirst));
  }

  /** The rules behind the snippets `retrieve` returns. */
  function Retrieved(listed: seq<Rule>, score: Rule -> nat, topK: int): seq<Rule> {
    Filter(listed, Tier(1)) + Filter(listed, Tier(2)) + Take(Ranked(score, Filter(listed, Tier(3))), topK)
  }

  /** The rules `retrieve` picks from these stored ones. */
  function RetrievedFrom(
      rules: seq<Rule>, ctx: Context, lower: Lower, terms: seq<string>, industries: seq<string>, topK: int): seq<Rule>
  {
    Retrieved(Filter(rules, VisibleTo(ctx, industries)), KeywordScore(lower, TermSet(terms)), topK)
  }

  /** The Tier 3 rules it can pick from, best first. */
  function Candidates(
      rules: seq<Rule>, ctx: Context, lower: Lower, terms: seq<string>, industries: seq<string>): seq<Rule>
  {
    Ranked(KeywordScore(lower, TermSet(terms)), Filter(Filter(rules, VisibleTo(ctx, industries)), Tier(3)))
  }

  /** `terms` are the lower-cased word tokens of the text. */
  method Retrieve(
      store: InMemoryRuleStore, ctx: Context, lower: Lower, terms: seq<string>, industries: seq<string>, topK: int)
    returns (snippets: seq<RuleSnippet>)
    requires store.Valid()
    ensures snippets == Snippets(RetrievedFrom(store.rules.Items(), ctx, lower, terms, industries, topK))
  {
    var allRules := store.ListForCustomer(ctx, industries);
    var tier1, tier2, tier3 := Filter(allRules, Tier(1)), Filter(allRules, Tier(2)), Filter(allRules, Tier(3));
    var ranked := RankByKeyword(lower, terms, tier3);
    snippets := Snippets(tier1 + tier2 + Take(ranked, topK));
  }

  lemma InRetrieved(listed: seq<Rule>, score: Rule -> nat, topK: int, r: Rule)
    ensures r in Retrieved(listed, score, topK) <==>
      (r in listed && (r.tier == 1 || r.tier == 2)) || r in Take(Ranked(score, Filter(listed, Tier(3))), topK)
  {
    FilterMember(listed, Tier(1), r);
    FilterMember(listed, Tier(2), r);
  }

  /** What the cut-off list takes is one of the listed Tier 3 rules, with a positive score. */
  lemma TakenIsTier3(listed: seq<Rule>, score: Rule -> nat, topK: int, r: Rule)
    requires r in Take(Ranked(score, Filter(listed, Tier(3))), topK)
    ensures r in listed && r.tier == 3 && score(r) > 0
  {
    RankedOrder(score, Filter(listed, Tier(3)));
    FilterMember(listed, Tier(3), r);
    assert r in Ranked(score, Filter(listed, Tier(3)));
  }

  /** In any store state: the shared rules retrieved are exactly the visible ones. */
  lemma SharedRulesRetrieved(
      rules: seq<Rule>, ctx: Context, industries: seq<string>, score: Rule -> nat, topK: int, r: Rule)
    requires r.tier == 1 || r.tier == 2
    ensures r in Retrieved(Filter(rules, VisibleTo(ctx, industries)), score, topK)
      <==> r in rules && Visible(ctx, industries, r)
  {
    var listed := Filter(rules, VisibleTo(ctx, industries));
    FilterMember(rules, VisibleTo(ctx, industries), r);
    InRetrieved(listed, score, topK, r);
    if r in Take(Ranked(score, Filter(listed, Tier(3))), topK) { TakenIsTier3(listed, score, topK, r); }
  }

  /** In any store state: the Tier 3 candidates are exactly the caller's own enabled rules, and those
      retrieved are the top of them. */
  lemma OwnRulesRanked(rules: seq<Rule>, ctx: Context, industries: seq<string>, score: Rule -> nat, topK: nat)
    ensures var own := Filter(Filter(rules, VisibleTo(ctx, industries)), Tier(3));
      && (forall r :: r in own <==> r in rules && r.enabled && OwnTier3(ctx, r))
      && forall top :: IsTopK(score, own, topK, top) <==> top == Take(Ranked(score, own), topK)
  {
    var listed := Filter(rules, VisibleTo(ctx, industries));
    forall r ensures r in Filter(listed, Tier(3)) <==> r in rules && r.enabled && OwnTier3(ctx, r) {
      FilterMember(rules, VisibleTo(ctx, industries), r);
      FilterMember(listed, Tier(3), r);
    }
    var own := Filter(listed, Tier(3));
    forall top ensures IsTopK(score, own, topK, top) <==> top == Take(Ranked(score, own), topK) {
      RankedIsTopK(score, own, topK, top);
    }
  }

  /** No other tenant's rule is retrieved: every Tier 3 rule is the caller's own. */
  lemma OnlyOwnTier3(rules: seq<Rule>, ctx: Context, industries: seq<string>, score: Rule -> nat, topK: int, r: Rule)
    requires r.tier == 3 && r in Retrieved(Filter(rules, VisibleTo(ctx, industries)), score, topK)
    ensures OwnTier3(ctx, r) && r.enabled && score(r) > 0
  {
    var listed := Filter(rules, VisibleTo(ctx, industries));
    InRetrieved(listed, score, topK, r);
    TakenIsTier3(listed, score, topK, r);
    FilterMember(rules, VisibleTo(ctx, industries), r);
  }
}
