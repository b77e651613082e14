/** Who sees which rules, and what a rule's score counts: said with the fields of rules, callers and terms. */
module RetrievalProperties {
  import opened Results
  import opened Sequences
  import opened Text
  import opened OrderedDict
  import opened Rules
  import opened Retrieval

  // ----- Who sees which rules -----

  /** The rule is enabled, not another country's Tier 1 rule, and not another customer's Tier 3 rule. */
  predicate Concerns(ctx: Context, r: Rule) {
    && r.enabled
    && (r.tier == 1 ==> r.countryCode == Some(ctx.countryCode))
    && (r.tier == 3 ==> r.customerId == Some(ctx.customerId))
  }

  function Concerning(ctx: Context): Rule -> bool {
    r => Concerns(ctx, r)
  }

  /** Stores that differ only in rules that do not concern the caller list the same, */
  lemma ListedAlike(one: seq<Rule>, other: seq<Rule>, ctx: Context, industries: seq<string>)
    requires Filter(one, Concerning(ctx)) == Filter(other, Concerning(ctx))
    ensures Filter(one, VisibleTo(ctx, industries)) == Filter(other, VisibleTo(ctx, industries))
  {
    FilterFilter(one, Concerning(ctx), VisibleTo(ctx, industries));
    FilterFilter(other, Concerning(ctx), VisibleTo(ctx, industries));
  }

  /** find the same, */
  lemma SearchedAlike(one: seq<Rule>, other: seq<Rule>, ctx: Context, lower: Lower, terms: seq<string>, limit: int)
    requires Filter(one, Concerning(ctx)) == Filter(other, Concerning(ctx))
    ensures Take(Ranked(ScoreBy(lower, terms), Filter(one, VisibleTo(ctx, []))), limit)
         == Take(Ranked(ScoreBy(lower, terms), Filter(other, VisibleTo(ctx, []))), limit)
  {
    ListedAlike(one, other, ctx, []);
  }

  /** and retrieve the same. */
  lemma RetrievedAlike(
      one: seq<Rule>, other: seq<Rule>, ctx: Context, lower: Lower, terms: seq<string>, industries: seq<string>,
      topK: int)
    requires Filter(one, Concerning(ctx)) == Filter(other, Concerning(ctx))
    ensures Snippets(RetrievedFrom(one, ctx, lower, terms, industries, topK))
         == Snippets(RetrievedFrom(other, ctx, lower, terms, industries, topK))
  {
    ListedAlike(one, other, ctx, industries);
  }

  /** Which rules are listed, field by field. */
  lemma ListedExactly(rules: seq<Rule>, ctx: Context, industries: seq<string>, r: Rule)
    requires r.Valid()
    ensures r in Filter(rules, VisibleTo(ctx, industries)) <==>
      && r in rules && r.enabled
      && (r.tier == 1 ==> r.countryCode == Some(ctx.countryCode))
      && (r.tier == 2 ==> industries == [] || exists i :: i in industries && r.industry == Some(i))
      && (r.tier == 3 ==> r.customerId == Some(ctx.customerId))
  {
    FilterMember(rules, VisibleTo(ctx, industries), r);
  }

  /** A Tier 1 rule is retrieved if and only if it is stored, enabled and of the caller's country; a Tier 2 rule if and
      only if it is stored, enabled and of an industry asked for, or none is asked for. */
  lemma SharedRetrievedExactly(
      rules: seq<Rule>, ctx: Context, lower: Lower, terms: seq<string>, industries: seq<string>, topK: int, r: Rule)
    requires r.Valid() && r.tier != 3
    ensures r in RetrievedFrom(rules, ctx, lower, terms, industries, topK) <==>
      && r in rules && r.enabled
      && (r.tier == 1 ==> r.countryCode == Some(ctx.countryCode))
      && (r.tier == 2 ==> industries == [] || exists i :: i in industries && r.industry == Some(i))
  {
    SharedRulesRetrieved(rules, ctx, industries, KeywordScore(lower, TermSet(terms)), topK, r);
    FilterMember(rules, VisibleTo(ctx, industries), r);
    ListedExactly(rules, ctx, industries, r);
  }

  /** Tier 1 rules come first, then Tier 2, then Tier 3. */
  lemma TiersInOrder(
      rules: seq<Rule>, ctx: Context, lower: Lower, terms: seq<string>, industries: seq<string>, topK: int,
      i: nat, j: nat)
    requires i < j < |RetrievedFrom(rules, ctx, lower, terms, industries, topK)|
    ensures var out := RetrievedFrom(rules, ctx, lower, terms, industries, topK); out[i].tier <= out[j].tier
  {
    var listed := Filter(rules, VisibleTo(ctx, industries));
    var score := KeywordScore(lower, TermSet(terms));
    var one, two := Filter(listed, Tier(1)), Filter(listed, Tier(2));
    var three := Take(Ranked(score, Filter(listed, Tier(3))), topK);
    FilterMembers(listed, Tier(1));
    FilterMembers(listed, Tier(2));
    forall r | r in three ensures r.tier == 3 {
      TakenIsTier3(listed, score, topK, r);
    }
    var out := RetrievedFrom(rules, ctx, lower, terms, industries, topK);
    assert out == one + two + three;
    forall k | 0 <= k < |out| ensures out[k].tier == if k < |one| then 1 else if k < |one| + |two| then 2 else 3 {
      assert if k < |one| then out[k] in one else if k < |one| + |two| then out[k] in two else out[k] in three;
    }
  }

  /** What is handed on of a rule: its id, tier, entity type and description, in the same place. */
  lemma SnippetAt(rules: seq<Rule>, i: nat)
    requires i < |rules|
    ensures |Snippets(rules)| == |rules|
    ensures var s := Snippets(rules)[i];
      s.ruleId == rules[i].ruleId && s.tier == rules[i].tier && s.entityType == rules[i].entityType
      && s.description == rules[i].description
  {
  }

  // ----- What other tenants' writes do -----

  lemma {:induction false} FilterUpdate(rules: seq<Rule>, i: nat, r: Rule, p: Rule -> bool)
    requires i < |rules| && !p(rules[i]) && !p(r)
    ensures Filter(rules[i := r], p) == Filter(rules, p)
  {
    if i == 0 {
      assert rules[0 := r][1..] == rules[1..];
    } else {
      FilterUpdate(rules[1..], i - 1, r, p);
      assert rules[i := r][1..] == rules[1..][i - 1 := r];
    }
  }

  /** Another customer's upsert is not seen by the caller, unless it takes the id of a rule that is not its own. */
  lemma UpsertUnseen(before: Dict<Rule>, writer: Context, reader: Context, rule: Rule)
    requires before.Valid() && UpsertError(writer, rule) == None && writer.customerId != reader.customerId
    requires rule.ruleId in before.values ==> OwnTier3(writer, before.values[rule.ruleId])
    ensures Filter(before.Put(rule.ruleId, rule).Items(), Concerning(reader))
         == Filter(before.Items(), Concerning(reader))
  {
    var items, after := before.Items(), before.Put(rule.ruleId, rule).Items();
    if rule.ruleId in before.values {
      var i :| 0 <= i < |before.keys| && before.keys[i] == rule.ruleId;
      assert after == items[i := rule];
      FilterUpdate(items, i, rule, Concerning(reader));
    } else {
      assert after == items + [rule];
      FilterAppend(items, rule, Concerning(reader));
    }
  }

  /** Nor is another customer's delete. */
  lemma DeleteUnseen(before: Dict<Rule>, writer: Context, reader: Context, ruleId: string)
    requires before.Valid() && writer.customerId != reader.customerId
    requires ruleId in before.values && OwnTier3(writer, before.values[ruleId])
    ensures Filter(before.Remove(ruleId).Items(), Concerning(reader)) == Filter(before.Items(), Concerning(reader))
  {
    ItemsOf(before);
    ItemsOf(before.Remove(ruleId));
    WithoutUnseen(before.keys, before.values, ruleId, Concerning(reader));
  }

  function ValuesOf(keys: seq<string>, values: map<string, Rule>): seq<Rule>
    requires forall k :: k in keys ==> k in values
  {
    seq(|keys|, i requires 0 <= i < |keys| => assert keys[i] in keys; values[keys[i]])
  }

  lemma ItemsOf(d: Dict<Rule>)
    requires d.Valid()
    ensures d.Items() == ValuesOf(d.keys, d.values)
  {
  }

  lemma {:induction false} WithoutUnseen(keys: seq<string>, values: map<string, Rule>, k: string, p: Rule -> bool)
    requires (forall x :: x in keys ==> x in values) && k in values && !p(values[k])
    requires forall x :: x in Without(keys, k) ==> x in values - {k}
    ensures Filter(ValuesOf(Without(keys, k), values - {k}), p) == Filter(ValuesOf(keys, values), p)
  {
    if keys == [] {
    } else {
      WithoutMember(keys, k, keys[0]);
      forall x | x in Without(keys[1..], k) ensures x in values - {k} {
        WithoutMember(keys[1..], k, x);
      }
      WithoutUnseen(keys[1..], values, k, p);
      var all, rest := ValuesOf(keys, values), ValuesOf(keys[1..], values);
      assert all == [values[keys[0]]] + rest;
      assert all[1..] == rest;
      if keys[0] == k {
        assert Without(keys, k) == Without(keys[1..], k);
        assert Filter(all, p) == Filter(rest, p);
      } else {
        var kept := ValuesOf(Without(keys[1..], k), values - {k});
        assert Without(keys, k) == [keys[0]] + Without(keys[1..], k);
        assert ValuesOf(Without(keys, k), values - {k}) == [values[keys[0]]] + kept;
        assert ([values[keys[0]]] + kept)[1..] == kept;
      }
    }
  }

  /** When an upsert is accepted, and which refusal it meets otherwise. */
  lemma UpsertAcceptedExactly(ctx: Context, rule: Rule)
    ensures UpsertError(ctx, rule) == None <==> rule.tier == 3 && rule.customerId == Some(ctx.customerId)
    ensures UpsertError(ctx, rule) == Some(NotTier3) <==> rule.tier != 3
    ensures UpsertError(ctx, rule) == Some(NotOwner) <==> rule.tier == 3 && rule.customerId != Some(ctx.customerId)
  {
  }

  // ----- What the text score counts -----

  /** Lowering works character by character: a joined text is lowered part by part. */
  ghost predicate ByCharacter(lower: Lower) {
    forall a, b :: lower(a + b) == lower(a) + lower(b)
  }

  lemma ContainsJoined(a: string, b: string, t: string)
    ensures Contains(a, t) || Contains(b, t) ==> Contains(a + b, t)
  {
    if Contains(a, t) {
      var p :| 0 <= p <= |a| && OccursAt(a, t, p);
      assert (a + b)[p..p + |t|] == a[p..p + |t|];
      assert OccursAt(a + b, t, p);
    }
    if Contains(b, t) {
      var p :| 0 <= p <= |b| && OccursAt(b, t, p);
      OccursLater(a, b, t, p);
    }
  }

  lemma SpaceInside(a: string, b: string, t: string, p: int)
    requires OccursAt(a + " " + b, t, p) && p <= |a| < p + |t|
    ensures ' ' in t
  {
    var x := a + " " + b;
    assert t[|a| - p] == x[p..p + |t|][|a| - p] == ' ';
  }

  /** A term without a space does not reach across one. */
  lemma ContainsAcross(a: string, b: string, t: string)
    requires ' ' !in t && Contains(a + " " + b, t)
    ensures Contains(a, t) || Contains(b, t)
  {
    var x := a + " " + b;
    var p :| 0 <= p <= |x| && OccursAt(x, t, p);
    if p + |t| <= |a| {
      assert a[p..p + |t|] == x[p..p + |t|];
      assert OccursAt(a, t, p);
    } else if p > |a| {
      assert x == a + " " + b && a + " " + b == (a + " ") + b;
      OccursBehind(a + " ", b, t, p);
      assert Contains(b, t);
    } else {
      SpaceInside(a, b, t, p);
    }
  }

  /** The term occurs in one of the words, lowered. */
  ghost predicate InSome(lower: Lower, words: seq<string>, t: string) {
    exists w :: w in words && Contains(lower(w), t)
  }

  lemma {:induction false} JoinedHasWords(lower: Lower, words: seq<string>, t: string)
    requires ByCharacter(lower) && InSome(lower, words, t)
    ensures Contains(lower(JoinWords(words)), t)
  {
    var w :| w in words && Contains(lower(w), t);
    if |words| > 1 {
      var rest := JoinWords(words[1..]);
      assert lower(words[0] + " " + rest) == lower(words[0]) + lower(" ") + lower(rest);
      if w == words[0] {
        ContainsJoined(lower(w), lower(" "), t);
        ContainsJoined(lower(w) + lower(" "), lower(rest), t);
      } else {
        assert w in words[1..];
        JoinedHasWords(lower, words[1..], t);
        ContainsJoined(lower(words[0]) + lower(" "), lower(rest), t);
      }
    }
  }

  lemma {:induction false} JoinedHasOnlyWords(lower: Lower, words: seq<string>, t: string)
    requires ByCharacter(lower) && lower(" ") == " " && ' ' !in t && words != []
    requires Contains(lower(JoinWords(words)), t)
    ensures InSome(lower, words, t)
  {
    if |words| == 1 {
      assert words[0] in words;
    } else {
      var rest := JoinWords(words[1..]);
      assert lower(words[0] + " " + rest) == lower(words[0]) + " " + lower(rest);
      ContainsAcross(lower(words[0]), lower(rest), t);
      if Contains(lower(words[0]), t) {
        assert words[0] in words;
      } else {
        JoinedHasOnlyWords(lower, words[1..], t);
        var w :| w in words[1..] && Contains(lower(w), t);
        assert w in words;
      }
    }
  }

  /** The term occurs in the rule's description or in one of its keywords, lowered. */
  ghost predicate Mentions(lower: Lower, r: Rule, t: string) {
    Contains(lower(r.description), t) || exists k :: k in r.keywords && Contains(lower(k), t)
  }

  lemma HaystackMentions(lower: Lower, r: Rule, t: string)
    requires ByCharacter(lower)
    ensures Mentions(lower, r, t) ==> Contains(Haystack(lower, r), t)
    ensures lower(" ") == " " && ' ' !in t && Contains(Haystack(lower, r), t) ==> Mentions(lower, r, t)
  {
    var words := [r.description] + r.keywords;
    assert forall w :: w in words <==> w == r.description || w in r.keywords;
    if Mentions(lower, r, t) {
      assert InSome(lower, words, t);
      JoinedHasWords(lower, words, t);
    }
    if lower(" ") == " " && ' ' !in t && Contains(Haystack(lower, r), t) {
      JoinedHasOnlyWords(lower, words, t);
    }
  }

  /** A rule of the caller's own is a candidate whenever a term is mentioned in it, and, for terms without spaces, only
      then. Nobody else's and no disabled rule ever is. */
  lemma CandidateExactly(
      rules: seq<Rule>, ctx: Context, lower: Lower, terms: seq<string>, industries: seq<string>, r: Rule)
    requires ByCharacter(lower)
    ensures r in Candidates(rules, ctx, lower, terms, industries) ==>
      r in rules && r.tier == 3 && r.enabled && r.customerId == Some(ctx.customerId)
    ensures (exists t :: t in terms && Mentions(lower, r, t))
      && r in rules && r.tier == 3 && r.enabled && r.customerId == Some(ctx.customerId)
      ==> r in Candidates(rules, ctx, lower, terms, industries)
    ensures lower(" ") == " " && (forall t :: t in terms ==> ' ' !in t)
      && r in Candidates(rules, ctx, lower, terms, industries)
      ==> exists t :: t in terms && Mentions(lower, r, t)
  {
    var score := KeywordScore(lower, TermSet(terms));
    var listed := Filter(rules, VisibleTo(ctx, industries));
    RankedOrder(score, Filter(listed, Tier(3)));
    FilterMember(listed, Tier(3), r);
    FilterMember(rules, VisibleTo(ctx, industries), r);
    var hits := set t | t in TermSet(terms) && Contains(Haystack(lower, r), t);
    assert score(r) == |hits|;
    if t :| t in terms && Mentions(lower, r, t) {
      HaystackMentions(lower, r, t);
      assert t in hits;
    }
    if hits != {} {
      var t :| t in hits;
      HaystackMentions(lower, r, t);
    }
  }

  /** The terms mentioned in the rule, each once. */
  ghost function Mentioned(lower: Lower, r: Rule, terms: seq<string>): set<string> {
    set t | t in terms && Mentions(lower, r, t)
  }

  lemma ScoreCountsMentions(lower: Lower, terms: seq<string>, r: Rule)
    requires ByCharacter(lower) && lower(" ") == " " && forall t :: t in terms ==> ' ' !in t
    ensures KeywordScore(lower, TermSet(terms))(r) == |Mentioned(lower, r, terms)|
  {
    var hits := set t | t in TermSet(terms) && Contains(Haystack(lower, r), t);
    forall t | t in terms ensures t in hits <==> Mentions(lower, r, t) {
      HaystackMentions(lower, r, t);
    }
    assert hits == Mentioned(lower, r, terms);
  }

  /** The candidates stand in order of how many different terms they mention, the most first. */
  lemma MostMentionsFirst(
      rules: seq<Rule>, ctx: Context, lower: Lower, terms: seq<string>, industries: seq<string>, i: nat, j: nat)
    requires ByCharacter(lower) && lower(" ") == " " && forall t :: t in terms ==> ' ' !in t
    requires i < j < |Candidates(rules, ctx, lower, terms, industries)|
    ensures var cs := Candidates(rules, ctx, lower, terms, industries);
      |Mentioned(lower, cs[i], terms)| >= |Mentioned(lower, cs[j], terms)|
  {
    var cs := Candidates(rules, ctx, lower, terms, industries);
    RankedOrder(KeywordScore(lower, TermSet(terms)), Filter(Filter(rules, VisibleTo(ctx, industries)), Tier(3)));
    ScoreCountsMentions(lower, terms, cs[i]);
    ScoreCountsMentions(lower, terms, cs[j]);
  }

  /** Repeating or reordering the terms of the text changes nothing that is retrieved. */
  lemma RepetitionIgnored(
      rules: seq<Rule>, ctx: Context, lower: Lower, terms: seq<string>, others: seq<string>, industries: seq<string>,
      topK: int)
    requires forall t :: t in terms <==> t in others
    ensures RetrievedFrom(rules, ctx, lower, terms, industries, topK)
         == RetrievedFrom(rules, ctx, lower, others, industries, topK)
  {
    assert TermSet(terms) == TermSet(others);
  }

  /** The Tier 3 part of what is retrieved is the front of the candidates. */
  lemma TakenFromCandidates(
      rules: seq<Rule>, ctx: Context, lower: Lower, terms: seq<string>, industries: seq<string>, topK: int, r: Rule)
    requires r.tier == 3
    ensures r in RetrievedFrom(rules, ctx, lower, terms, industries, topK)
       <==> r in Take(Candidates(rules, ctx, lower, terms, industries), topK)
  {
    InRetrieved(Filter(rules, VisibleTo(ctx, industries)), KeywordScore(lower, TermSet(terms)), topK, r);
  }

  /** What a negative or a large limit leaves of a list: Python's `s[:limit]`. */
  lemma TakeLength<T>(s: seq<T>, limit: int)
    ensures Take(s, limit) <= s
    ensures |Take(s, limit)| == Max(0, if limit < 0 then |s| + limit else if limit < |s| then limit else |s|)
  {
  }

  // ----- What the search score counts -----

  /** The search finds a rule for a term that occurs in its description or is one of its keywords, lowered. */
  ghost predicate FoundBy(lower: Lower, r: Rule, t: string) {
    Contains(lower(r.description), lower(t)) || exists k :: k in r.keywords && lower(k) == lower(t)
  }

  lemma MatchesExactly(lower: Lower, r: Rule, t: string)
    ensures TermMatches(lower, r, t) <==> FoundBy(lower, r, t)
  {
  }

  ghost function Hits(lower: Lower, terms: seq<string>, r: Rule): set<nat> {
    set i: nat | i < |terms| && FoundBy(lower, r, terms[i])
  }

  /** The search counts every occurrence of a term in the query, repetitions included. */
  lemma {:induction false} ScoreCountsHits(lower: Lower, terms: seq<string>, r: Rule)
    ensures Score(lower, terms, r) == |Hits(lower, terms, r)|
  {
    if terms == [] {
      assert Hits(lower, terms, r) == {};
    } else {
      var n := |terms| - 1;
      ScoreCountsHits(lower, terms[..n], r);
      MatchesExactly(lower, r, terms[n]);
      var before := Hits(lower, terms[..n], r);
      assert Hits(lower, terms, r) == if FoundBy(lower, r, terms[n]) then before + {n} else before;
      assert n !in before;
    }
  }

  /** A rule is found if and only if it is listed for the caller and some term finds it. */
  lemma SearchFindsExactly(rules: seq<Rule>, ctx: Context, lower: Lower, terms: seq<string>, r: Rule)
    requires r.Valid()
    ensures r in Ranked(ScoreBy(lower, terms), Filter(rules, VisibleTo(ctx, []))) <==>
      && r in rules && r.enabled
      && (r.tier == 1 ==> r.countryCode == Some(ctx.countryCode))
      && (r.tier == 3 ==> r.customerId == Some(ctx.customerId))
      && exists i :: 0 <= i < |terms| && FoundBy(lower, r, terms[i])
  {
    RankedOrder(ScoreBy(lower, terms), Filter(rules, VisibleTo(ctx, [])));
    ListedExactly(rules, ctx, [], r);
    ScoreCountsHits(lower, terms, r);
    var hits := Hits(lower, terms, r);
    if i :| 0 <= i < |terms| && FoundBy(lower, r, terms[i]) {
      assert i in hits;
    }
    if hits != {} {
      var i :| i in hits;
      assert FoundBy(lower, r, terms[i]);
    }
  }
}
