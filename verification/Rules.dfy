/** The layered rule store and keyword retrieval over it. */
module Rules {
  import opened Results
  import opened Sequences
  import opened Text
  import opened OrderedDict

  datatype Rule = Rule(
    ruleId: string, tier: int, entityType: string, description: string,
    countryCode: Option<string>, industry: Option<string>, customerId: Option<string>,
    enabled: bool, keywords: seq<string>)
  {
    /** What the constructor checks, and the closed set of tiers. */
    predicate Valid() {
      && 1 <= tier <= 3
      && (tier == 1 ==> countryCode.Some? && countryCode.value != "")
      && (tier == 3 ==> customerId.Some? && customerId.value != "")
    }
  }

  datatype Context = Context(customerId: string, countryCode: string)

  datatype StoreError = NotTier3 | NotOwner

  /** `list_for_customer`'s filter; an empty list of industries admits all. */
  predicate Visible(ctx: Context, industries: seq<string>, r: Rule) {
    && r.enabled
    && ((r.tier == 1 && r.countryCode == Some(ctx.countryCode))
        || (r.tier == 2 && (industries == [] || (r.industry.Some? && r.industry.value in industries)))
        || (r.tier == 3 && r.customerId == Some(ctx.customerId)))
  }

  function VisibleTo(ctx: Context, industries: seq<string>): Rule -> bool {
    r => Visible(ctx, industries, r)
  }

  /** Lower-casing is a parameter. */
  type Lower = string -> string

  predicate TermMatches(lower: Lower, r: Rule, term: string) {
    Contains(lower(r.description), lower(term)) || exists k | k in r.keywords :: lower(term) == lower(k)
  }

  /** How many of the terms, repetitions counted, occur in the description or equal a keyword. */
  function Score(lower: Lower, terms: seq<string>, r: Rule): nat {
    if terms == [] then 0
    else Score(lower, terms[..|terms| - 1], r) + if TermMatches(lower, r, terms[|terms| - 1]) then 1 else 0
  }

  datatype Scored = Scored(score: nat, rule: Rule)

  /** The sort key `-score`. */
  predicate HigherFirst(a: Scored, b: Scored) { a.score >= b.score }

  /** The rules with a positive score, with their scores, in the given order. */
  function Positive(score: Rule -> nat, rules: seq<Rule>): seq<Scored> {
    if rules == [] then []
    else
      var n := |rules| - 1;
      Positive(score, rules[..n]) + if score(rules[n]) > 0 then [Scored(score(rules[n]), rules[n])] else []
  }

  function RulesOf(scored: seq<Scored>): seq<Rule> {
    seq(|scored|, i requires 0 <= i < |scored| => scored[i].rule)
  }

  /** Python's `s[:limit]`, negative limits counting from the end. */
  function Take<T>(s: seq<T>, limit: int): seq<T> {
    if limit >= |s| then s
    else if limit >= 0 then s[..limit]
    else if |s| + limit >= 0 then s[..|s| + limit]
    else []
  }

  /** Cutting off before or after the scores are dropped is the same. */
  lemma TakeRules(scored: seq<Scored>, limit: int)
    ensures RulesOf(Take(scored, limit)) == Take(RulesOf(scored), limit)
  {
  }

  /** Positive-score rules, best first, ties in store order. */
  function Ranked(score: Rule -> nat, rules: seq<Rule>): seq<Rule> {
    RulesOf(StableSort(Positive(score, rules), HigherFirst))
  }

  function ScoreBy(lower: Lower, terms: seq<string>): Rule -> nat {
    r => Score(lower, terms, r)
  }

  /** The loop that collects scored rules. */
  method CollectPositive(score: Rule -> nat, rules: seq<Rule>) returns (scored: seq<Scored>)
    ensures scored == Positive(score, rules)
  {
    scored := [];
    for i := 0 to |rules|
      invariant scored == Positive(score, rules[..i])
    {
      assert rules[..i + 1][..i] == rules[..i];
      var s := score(rules[i]);
      if s > 0 {
        scored := scored + [Scored(s, rules[i])];
      }
    }
    assert rules[..|rules|] == rules;
  }

  lemma PositiveStep(score: Rule -> nat, all: seq<Rule>, i: nat, p: Rule -> bool)
    requires i < |all|
    ensures Positive(score, Filter(all[..i + 1], p))
         == Positive(score, Filter(all[..i], p))
            + if p(all[i]) && score(all[i]) > 0 then [Scored(score(all[i]), all[i])] else []
  {
    var before := Filter(all[..i], p);
    assert all[..i + 1] == all[..i] + [all[i]];
    FilterAppend(all[..i], all[i], p);
    assert (before + [all[i]])[..|before|] == before;
    assert before + [] == before && Positive(score, before) + [] == Positive(score, before);
  }

  /** Where the first rule with that id stands; the length when there is none. */
  function FirstPlace(seed: seq<Rule>, id: string): (p: nat)
    ensures p <= |seed| && (p < |seed| ==> seed[p].ruleId == id)
    ensures forall k :: 0 <= k < p ==> seed[k].ruleId != id
  {
    if seed == [] then 0
    else
      var n := |seed| - 1;
      var p := FirstPlace(seed[..n], id);
      if p < n || seed[n].ruleId == id then p else n + 1
  }

  /** Where the last rule with that id stands; -1 when there is none. */
  function LastPlace(seed: seq<Rule>, id: string): (p: int)
    ensures -1 <= p < |seed| && (p >= 0 ==> seed[p].ruleId == id)
    ensures forall k :: p < k < |seed| ==> seed[k].ruleId != id
  {
    if seed == [] then -1
    else
      var n := |seed| - 1;
      if seed[n].ruleId == id then n else LastPlace(seed[..n], id)
  }

  /** Every id of the seed, in the order of their first rules, each with its last. */
  ghost predicate Seeded(seed: seq<Rule>, d: Dict<Rule>) {
    && d.Valid()
    && (forall id :: id in d.values <==> LastPlace(seed, id) >= 0)
    && (forall id :: id in d.values ==> d.values[id] == seed[LastPlace(seed, id)])
    && (forall a, b :: 0 <= a < b < |d.keys| ==> FirstPlace(seed, d.keys[a]) < FirstPlace(seed, d.keys[b]))
  }

  /** One more rule moves no first place. */
  lemma FirstPlaceStays(seed: seq<Rule>, r: Rule, id: string)
    ensures FirstPlace(seed + [r], id) ==
            if FirstPlace(seed, id) < |seed| || r.ruleId == id then FirstPlace(seed, id) else |seed| + 1
  {
    assert (seed + [r])[..|seed|] == seed;
  }

  lemma FirstPlaceWithin(seed: seq<Rule>, id: string)
    ensures FirstPlace(seed, id) < |seed| <==> LastPlace(seed, id) >= 0
  {
  }

  lemma SeedOrder(seed: seq<Rule>, d: Dict<Rule>, r: Rule, a: nat, b: nat)
    requires Seeded(seed, d) && a < b < |d.Put(r.ruleId, r).keys|
    ensures var keys := d.Put(r.ruleId, r).keys; FirstPlace(seed + [r], keys[a]) < FirstPlace(seed + [r], keys[b])
  {
    var keys := d.Put(r.ruleId, r).keys;
    assert keys[a] == d.keys[a] && d.keys[a] in d.keys;
    FirstPlaceStays(seed, r, keys[a]);
    FirstPlaceStays(seed, r, keys[b]);
    FirstPlaceWithin(seed, keys[a]);
    FirstPlaceWithin(seed, keys[b]);
    assert b < |d.keys| ==> d.keys[b] in d.keys;
  }

  lemma LastPlaceMoves(seed: seq<Rule>, r: Rule, id: string)
    ensures LastPlace(seed + [r], id) == if r.ruleId == id then |seed| else LastPlace(seed, id)
  {
    assert (seed + [r])[..|seed|] == seed;
  }

  lemma SeedValue(seed: seq<Rule>, d: Dict<Rule>, r: Rule, id: string)
    requires Seeded(seed, d)
    ensures var e := d.Put(r.ruleId, r);
      && (id in e.values <==> LastPlace(seed + [r], id) >= 0)
      && (id in e.values ==> e.values[id] == (seed + [r])[LastPlace(seed + [r], id)])
  {
    LastPlaceMoves(seed, r, id);
  }

  /** One more rule of the seed. */
  lemma SeedOne(seed: seq<Rule>, d: Dict<Rule>, r: Rule)
    requires Seeded(seed, d)
    ensures Seeded(seed + [r], d.Put(r.ruleId, r))
  {
    var more := seed + [r];
    var e := d.Put(r.ruleId, r);
    forall id ensures id in e.values <==> LastPlace(more, id) >= 0 {
      SeedValue(seed, d, r, id);
    }
    forall id | id in e.values ensures e.values[id] == more[LastPlace(more, id)] {
      SeedValue(seed, d, r, id);
    }
    forall a, b | 0 <= a < b < |e.keys| ensures FirstPlace(more, e.keys[a]) < FirstPlace(more, e.keys[b]) {
      SeedOrder(seed, d, r, a, b);
    }
  }

  class InMemoryRuleStore {
    var rules: Dict<Rule>

    ghost predicate Valid()
      reads this
    {
      && rules.Valid()
      && forall id :: id in rules.values ==> rules.values[id].Valid() && rules.values[id].ruleId == id
    }

    /** Seeding keeps a repeated id's first place and last value. */
    constructor (seed: seq<Rule>)
      requires forall r :: r in seed ==> r.Valid()
      ensures Valid() && Seeded(seed, rules)
    {
      var d: Dict<Rule> := Empty();
      for i := 0 to |seed|
        invariant Seeded(seed[..i], d)
      {
        assert seed[..i + 1] == seed[..i] + [seed[i]];
        SeedOne(seed[..i], d, seed[i]);
        d := d.Put(seed[i].ruleId, seed[i]);
      }
      assert seed[..|seed|] == seed;
      rules := d;
    }

    method ListForCustomer(ctx: Context, industries: seq<string>) returns (out: seq<Rule>)
      requires Valid()
      ensures out == Filter(rules.Items(), VisibleTo(ctx, industries))
    {
      var all := rules.Items();
      out := [];
      for i := 0 to |all|
        invariant out == Filter(all[..i], VisibleTo(ctx, industries))
      {
        var r := all[i];
        assert all[..i + 1] == all[..i] + [r];
        FilterAppend(all[..i], r, VisibleTo(ctx, industries));
        if !r.enabled {
          continue;
        }
        if r.tier == 1 && r.countryCode == Some(ctx.countryCode) {
          out := out + [r];
          continue;
        }
        if r.tier == 2 && (industries == [] || (r.industry.Some? && r.industry.value in industries)) {
          out := out + [r];
          continue;
        }
        if r.tier == 3 && r.customerId == Some(ctx.customerId) {
          out := out + [r];
        }
      }
      assert all[..|all|] == all;
    }

    /** The search reads the store itself, with its own exclusions, and still returns what ranking the
        listed rules would. */
    method SearchKeywords(ctx: Context, lower: Lower, terms: seq<string>, limit: int) returns (found: seq<Rule>)
      requires Valid()
      ensures found == Take(Ranked(ScoreBy(lower, terms), Filter(rules.Items(), VisibleTo(ctx, []))), limit)
    {
      assert forall r :: r in rules.Items() ==> r.Valid();
      var scored := SearchScored(ctx, lower, terms, rules.Items());
      found := RulesOf(Take(StableSort(scored, HigherFirst), limit));
      TakeRules(StableSort(scored, HigherFirst), limit);
    }

    method SearchScored(ctx: Context, lower: Lower, terms: seq<string>, all: seq<Rule>) returns (scored: seq<Scored>)
      requires forall r :: r in all ==> r.Valid()
      ensures scored == Positive(ScoreBy(lower, terms), Filter(all, VisibleTo(ctx, [])))
    {
      scored := [];
      for i := 0 to |all|
        invariant scored == Positive(ScoreBy(lower, terms), Filter(all[..i], VisibleTo(ctx, [])))
      {
        var r := all[i];
        assert r in all && r.Valid();
        PositiveStep(ScoreBy(lower, terms), all, i, VisibleTo(ctx, []));
        if !r.enabled {
          continue;
        }
        if r.tier == 3 && r.customerId != Some(ctx.customerId) {
          continue;
        }
        if r.tier == 1 && r.countryCode != Some(ctx.countryCode) {
          continue;
        }
        var score := ScoreLoop(lower, terms, r);
        if score > 0 {
          scored := scored + [Scored(score, r)];
        }
      }
      assert all[..|all|] == all;
    }

    method ScoreLoop(lower: Lower, terms: seq<string>, r: Rule) returns (score: nat)
      ensures score == Score(lower, terms, r)
    {
      score := 0;
      for i := 0 to |terms|
        invariant score == Score(lower, terms[..i], r)
      {
        assert terms[..i + 1][..i] == terms[..i];
        if TermMatches(lower, r, terms[i]) {
          score := score + 1;
        }
      }
      assert terms[..|terms|] == terms;
    }

    /** Writes by rule id: whatever rule held that id before is gone. */
    method UpsertTier3(ctx: Context, rule: Rule) returns (error: Option<StoreError>)
      requires Valid() && rule.Valid()
      modifies this
      ensures Valid()
      ensures error == UpsertError(ctx, rule)
      ensures error.Some? ==> rules == old(rules)
      ensures error == None ==> rules == old(rules).Put(rule.ruleId, rule)
    {
      if rule.tier != 3 {
        return Some(NotTier3);
      }
      if rule.customerId != Some(ctx.customerId) {
        return Some(NotOwner);
      }
      rules := rules.Put(rule.ruleId, rule);
      return None;
    }

    method DeleteTier3(ctx: Context, ruleId: string) returns (error: Option<StoreError>)
      requires Valid()
      modifies this
      ensures Valid()
      ensures ruleId !in old(rules).values ==> error == None && rules == old(rules)
      ensures ruleId in old(rules).values ==>
        (error == None <==> OwnTier3(ctx, old(rules).values[ruleId]))
      ensures error.Some? ==> error == Some(NotOwner) && rules == old(rules)
      ensures error == None && ruleId in old(rules).values ==> rules == old(rules).Remove(ruleId)
    {
      if ruleId !in rules.values {
        return None;
      }
      var existing := rules.values[ruleId];
      if existing.tier != 3 || existing.customerId != Some(ctx.customerId) {
        return Some(NotOwner);
      }
      rules := rules.Remove(ruleId);
      return None;
    }
  }

  predicate OwnTier3(ctx: Context, r: Rule) {
    r.tier == 3 && r.customerId == Some(ctx.customerId)
  }

  function UpsertError(ctx: Context, rule: Rule): Option<StoreError> {
    if rule.tier != 3 then Some(NotTier3)
    else if rule.customerId != Some(ctx.customerId) then Some(NotOwner)
    else None
  }

  // ----- What upserts leave alone -----

  /** Every rule the caller does not own as Tier 3 is still there, unchanged. */
  ghost predicate OthersKept(ctx: Context, before: Dict<Rule>, after: Dict<Rule>) {
    forall id :: id in before.values && !OwnTier3(ctx, before.values[id]) ==>
      id in after.values && after.values[id] == before.values[id]
  }

  /** An upsert leaves the shared rules and the other tenants' rules as they are if and only if the id it
      writes was free or already the caller's own. */
  lemma UpsertKeepsOthersExactly(ctx: Context, before: Dict<Rule>, rule: Rule)
    requires before.Valid() && UpsertError(ctx, rule) == None
    ensures OthersKept(ctx, before, before.Put(rule.ruleId, rule))
       <==> rule.ruleId !in before.values || OwnTier3(ctx, before.values[rule.ruleId])
  {
    var after := before.Put(rule.ruleId, rule);
    if rule.ruleId in before.values && !OwnTier3(ctx, before.values[rule.ruleId]) {
      assert after.values[rule.ruleId] != before.values[rule.ruleId];
    }
  }

  /** A country rule replaced by a customer's rule of the same id. */
  lemma UpsertCanReplaceTier1()
    ensures var ctx := Context("cust-a", "DZ");
      var country := Rule("dz.nin", 1, "national_id", "NIN", Some("DZ"), None, None, true, []);
      var custom := Rule("dz.nin", 3, "custom", "mine", None, None, Some("cust-a"), true, []);
      var before := Empty<Rule>().Put("dz.nin", country);
      && UpsertError(ctx, custom) == None && !OthersKept(ctx, before, before.Put("dz.nin", custom))
  {
    var ctx := Context("cust-a", "DZ");
    var country := Rule("dz.nin", 1, "national_id", "NIN", Some("DZ"), None, None, true, []);
    var custom := Rule("dz.nin", 3, "custom", "mine", None, None, Some("cust-a"), true, []);
    UpsertKeepsOthersExactly(ctx, Empty<Rule>().Put("dz.nin", country), custom);
  }

  /** A delete that goes through removes one of the caller's own Tier 3 rules and nothing else. */
  lemma DeleteKeepsOthers(ctx: Context, before: Dict<Rule>, ruleId: string)
    requires before.Valid() && ruleId in before.values && OwnTier3(ctx, before.values[ruleId])
    ensures OthersKept(ctx, before, before.Remove(ruleId))
  {
  }

  // ----- What a ranking is -----

  lemma HigherFirstPreorder()
    ensures TotalPreorder(HigherFirst)
  {
  }

  lemma {:induction false} PositiveMembers(score: Rule -> nat, rules: seq<Rule>)
    ensures forall s :: s in Positive(score, rules) <==> s.rule in rules && s.score == score(s.rule) && s.score > 0
  {
    if rules == [] {
    } else {
      var n := |rules| - 1;
      PositiveMembers(score, rules[..n]);
      assert rules == rules[..n] + [rules[n]];
    }
  }

  /** The rules of one score, in order. */
  function OfScore(score: Rule -> nat, v: nat): Rule -> bool {
    r => score(r) == v
  }

  /** The cut-off list, said without sorting or ranking: best scores first, only positive ones; of each score
      the first rules in store order, each as often as in the store; and none of a score left out unless the
      limit is reached with nothing lower taken. */
  ghost predicate IsTopK(score: Rule -> nat, rules: seq<Rule>, limit: nat, top: seq<Rule>) {
    && |top| <= limit
    && (forall i :: 0 <= i < |top| ==> score(top[i]) > 0)
    && Descending(score, top)
    && (forall v :: v > 0 ==> Filter(top, OfScore(score, v)) <= Filter(rules, OfScore(score, v)))
    && (forall v :: v > 0 && Filter(top, OfScore(score, v)) != Filter(rules, OfScore(score, v)) ==>
          |top| == limit && forall i :: 0 <= i < |top| ==> score(top[i]) >= v)
  }

  ghost predicate Descending(score: Rule -> nat, rules: seq<Rule>) {
    forall i, j :: 0 <= i < j < |rules| ==> score(rules[i]) >= score(rules[j])
  }

  lemma SortedScores(score: Rule -> nat, rules: seq<Rule>)
    ensures var all := StableSort(Positive(score, rules), HigherFirst);
      && Sorted(all, HigherFirst)
      && (forall s :: s in all <==> s.rule in rules && s.score == score(s.rule) && s.score > 0)
      && |Ranked(score, rules)| == |all|
  {
    HigherFirstPreorder();
    SortSorts(Positive(score, rules), HigherFirst);
    SortKeepsElements(Positive(score, rules), HigherFirst);
    PositiveMembers(score, rules);
  }

  /** Every rule with a positive score is ranked, nothing else is, and scores never rise. */
  lemma RankedOrder(score: Rule -> nat, rules: seq<Rule>)
    ensures var ranked := Ranked(score, rules);
      && (forall r :: r in ranked <==> r in rules && score(r) > 0)
      && (forall i, j :: 0 <= i < j < |ranked| ==> score(ranked[i]) >= score(ranked[j]))
  {
    var all := StableSort(Positive(score, rules), HigherFirst);
    var ranked := Ranked(score, rules);
    SortedScores(score, rules);
    forall i | 0 <= i < |ranked|
      ensures ranked[i] in rules && score(ranked[i]) == all[i].score && score(ranked[i]) > 0
    {
      assert all[i] in all;
    }
    forall r | r in rules && score(r) > 0 ensures r in ranked {
      var j :| 0 <= j < |all| && all[j] == Scored(score(r), r);
      assert ranked[j] == r;
    }
    forall i, j | 0 <= i < j < |ranked| ensures score(ranked[i]) >= score(ranked[j]) {
      assert HigherFirst(all[i], all[j]);
    }
  }

  /** The first `limit` of the ranked rules are the top `limit`, and nothing else is. */
  lemma RankedIsTopK(score: Rule -> nat, rules: seq<Rule>, limit: nat, top: seq<Rule>)
    ensures IsTopK(score, rules, limit, top) <==> top == Take(Ranked(score, rules), limit)
  {
    if top == Take(Ranked(score, rules), limit) {
      TakenIsTopK(score, rules, limit);
    }
    if IsTopK(score, rules, limit, top) {
      TopKIsTaken(score, rules, limit, top);
    }
  }

  lemma TakenIsTopK(score: Rule -> nat, rules: seq<Rule>, limit: nat)
    ensures IsTopK(score, rules, limit, Take(Ranked(score, rules), limit))
  {
    var ranked := Ranked(score, rules);
    var top := Take(ranked, limit);
    var rest := ranked[|top|..];
    assert ranked == top + rest;
    RankedOrder(score, rules);
    forall i | 0 <= i < |top| ensures score(top[i]) > 0 {
      assert ranked[i] in ranked;
    }
    forall v | v > 0
      ensures Filter(top, OfScore(score, v)) <= Filter(rules, OfScore(score, v))
      ensures Filter(top, OfScore(score, v)) != Filter(rules, OfScore(score, v)) ==>
        |top| == limit && forall i :: 0 <= i < |top| ==> score(top[i]) >= v
    {
      RankedStable(score, rules, v);
      ShareOfFront(score, top, rest, v);
    }
  }

  /** The front of a descending list holds the first rules of each score, and all of them unless nothing in
      it scores lower. */
  lemma ShareOfFront(score: Rule -> nat, front: seq<Rule>, rest: seq<Rule>, v: nat)
    requires Descending(score, front + rest)
    ensures Filter(front, OfScore(score, v)) <= Filter(front + rest, OfScore(score, v))
    ensures Filter(front, OfScore(score, v)) != Filter(front + rest, OfScore(score, v)) ==>
      rest != [] && forall i :: 0 <= i < |front| ==> score(front[i]) >= v
  {
    var p := OfScore(score, v);
    FilterConcat(front, rest, p);
    if Filter(rest, p) != [] {
      var r := Filter(rest, p)[0];
      FilterMember(rest, p, r);
      var k :| 0 <= k < |rest| && rest[k] == r;
      forall i | 0 <= i < |front| ensures score(front[i]) >= v {
        assert (front + rest)[i] == front[i] && (front + rest)[|front| + k] == r;
      }
    }
  }

  /** In a descending list that falls below v at i, the share of score v lies before i. */
  lemma SharePast(score: Rule -> nat, s: seq<Rule>, i: nat, v: nat)
    requires i <= |s| && Descending(score, s) && (i < |s| ==> score(s[i]) < v)
    ensures Filter(s, OfScore(score, v)) == Filter(s[..i], OfScore(score, v))
  {
    assert s == s[..i] + s[i..];
    FilterConcat(s[..i], s[i..], OfScore(score, v));
    forall x | x in s[i..] ensures score(x) != v {
      var k :| 0 <= k < |s[i..]| && s[i..][k] == x;
      assert i + k == i || score(s[i]) >= score(s[i + k]);
    }
    FilterNone(s[i..], OfScore(score, v));
  }

  lemma {:induction false} TopKAgrees(score: Rule -> nat, rules: seq<Rule>, limit: nat, top: seq<Rule>, i: nat)
    requires IsTopK(score, rules, limit, top) && i <= |top|
    ensures top[..i] <= Ranked(score, rules)
  {
    var ranked := Ranked(score, rules);
    if i == 0 {
    } else {
      var k := i - 1;
      TopKAgrees(score, rules, limit, top, k);
      RankedOrder(score, rules);
      assert ranked[..k] == top[..k];
      var v := score(top[k]);
      FilterNext(top, OfScore(score, v), k);
      RankedStable(score, rules, v);
      if k == |ranked| || score(ranked[k]) < v {
        SharePast(score, ranked, k, v);
        assert false;
      }
      var w := score(ranked[k]);
      assert ranked[k] in ranked;
      FilterNext(ranked, OfScore(score, w), k);
      RankedStable(score, rules, w);
      if v < w {
        SharePast(score, top, k, w);
        assert false;
      }
      SameNext(Filter(top[..k], OfScore(score, v)), top[k], ranked[k], Filter(rules, OfScore(score, v)));
      assert top[..i] == top[..k] + [top[k]];
    }
  }

  lemma SameNext<T>(front: seq<T>, a: T, b: T, all: seq<T>)
    requires front + [a] <= all && front + [b] <= all
    ensures a == b
  {
    assert (front + [a])[|front|] == all[|front|] == (front + [b])[|front|];
  }

  lemma TopKIsTaken(score: Rule -> nat, rules: seq<Rule>, limit: nat, top: seq<Rule>)
    requires IsTopK(score, rules, limit, top)
    ensures top == Take(Ranked(score, rules), limit)
  {
    var ranked := Ranked(score, rules);
    TopKAgrees(score, rules, limit, top, |top|);
    assert top[..|top|] == top;
    if |top| < |ranked| && |top| < limit {
      RankedOrder(score, rules);
      var w := score(ranked[|top|]);
      assert ranked[|top|] in ranked && ranked[..|top|] == top;
      FilterNext(ranked, OfScore(score, w), |top|);
      RankedStable(score, rules, w);
      assert false;
    }
  }

  /** Before the cut-off, the rules of any one score stand in store order, each as often as in the store. */
  lemma RankedStable(score: Rule -> nat, rules: seq<Rule>, v: nat)
    requires v > 0
    ensures Filter(Ranked(score, rules), OfScore(score, v)) == Filter(rules, OfScore(score, v))
  {
    HigherFirstPreorder();
    var pos := Positive(score, rules);
    if r :| r in rules && score(r) == v {
      var g := Scored(v, r);
      SortStable(pos, HigherFirst, g);
      SortedScores(score, rules);
      PositiveMembers(score, rules);
      FilterThroughRules(score, StableSort(pos, HigherFirst), g);
      FilterThroughRules(score, pos, g);
      PositiveOfScore(score, rules, v);
    } else {
      SortedScores(score, rules);
      FilterNone(rules, OfScore(score, v));
      var all := StableSort(pos, HigherFirst);
      forall x | x in Ranked(score, rules) ensures score(x) != v {
        var i :| 0 <= i < |all| && all[i].rule == x;
        assert all[i] in all;
      }
      FilterNone(Ranked(score, rules), OfScore(score, v));
    }
  }

  lemma {:induction false} FilterThroughRules(score: Rule -> nat, s: seq<Scored>, g: Scored)
    requires forall x :: x in s ==> x.score == score(x.rule)
    ensures RulesOf(Filter(s, y => Ties(HigherFirst, g, y))) == Filter(RulesOf(s), OfScore(score, g.score))
  {
    if s == [] {
    } else {
      FilterThroughRules(score, s[1..], g);
      assert RulesOf(s)[1..] == RulesOf(s[1..]);
      var rest := Filter(s[1..], y => Ties(HigherFirst, g, y));
      assert RulesOf([s[0]] + rest) == [s[0].rule] + RulesOf(rest);
      assert s[0] in s;
    }
  }

  lemma {:induction false} PositiveOfScore(score: Rule -> nat, rules: seq<Rule>, v: nat)
    requires v > 0
    ensures Filter(RulesOf(Positive(score, rules)), OfScore(score, v)) == Filter(rules, OfScore(score, v))
  {
    if rules == [] {
    } else {
      var n := |rules| - 1;
      PositiveOfScore(score, rules[..n], v);
      assert rules == rules[..n] + [rules[n]];
      FilterAppend(rules[..n], rules[n], OfScore(score, v));
      var before := Positive(score, rules[..n]);
      if score(rules[n]) > 0 {
        assert RulesOf(before + [Scored(score(rules[n]), rules[n])]) == RulesOf(before) + [rules[n]];
        FilterAppend(RulesOf(before), rules[n], OfScore(score, v));
      } else {
        assert before + [] == before;
      }
    }
  }
}
