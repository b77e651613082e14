/** The model-backed detector's loop that groups labelled tokens into spans. */
module NerTokens {
  import opened Results
  import opened Text
  import opened Ner

  /** One token: its label id and its character offsets; special tokens have the offsets (0, 0). */
  datatype Token = Token(labelId: int, start: nat, end: nat)

  function LabelOf(labelId: int): Option<string> {
    if labelId == 1 || labelId == 2 then Some("person")
    else if labelId == 3 || labelId == 4 then Some("organization")
    else if labelId == 5 || labelId == 6 then Some("location")
    else None
  }

  /** The loop takes part only in tokens with a label and a place in the text. */
  predicate Counts(t: Token) {
    LabelOf(t.labelId).Some? && t.end != 0
  }

  function Emit(cur: Option<NerSpan>): seq<NerSpan> {
    if cur.Some? then [cur.value] else []
  }

  /** The spans so far with the one being built, if any. */
  function Flush(done: seq<NerSpan>, cur: Option<NerSpan>): seq<NerSpan> {
    if cur.Some? then done + [cur.value] else done
  }

  /** Whether t continues the span being built. */
  predicate Continues(cur: Option<NerSpan>, t: Token) {
    cur.Some? && Some(cur.value.entityType) == LabelOf(t.labelId) && t.start <= cur.value.end + 1
  }

  /** The span being built after a token that counts. */
  function Grow(text: string, cur: Option<NerSpan>, t: Token): NerSpan
    requires Counts(t)
  {
    var start := if Continues(cur, t) then cur.value.start else t.start;
    NerSpan(start, t.end, Slice(text, start, t.end), LabelOf(t.labelId).value)
  }

  function GroupFrom(text: string, cur: Option<NerSpan>, tokens: seq<Token>): seq<NerSpan>
    decreases |tokens|
  {
    if tokens == [] then Emit(cur)
    else if !Counts(tokens[0]) then Emit(cur) + GroupFrom(text, None, tokens[1..])
    else
      var emitted := if Continues(cur, tokens[0]) then [] else Emit(cur);
      emitted + GroupFrom(text, Some(Grow(text, cur, tokens[0])), tokens[1..])
  }

  /** The final list when the loop stands at `done` and `cur` with `tokens` to go. */
  function Remaining(done: seq<NerSpan>, text: string, cur: Option<NerSpan>, tokens: seq<Token>): seq<NerSpan> {
    done + GroupFrom(text, cur, tokens)
  }

  lemma GroupStep(done: seq<NerSpan>, text: string, cur: Option<NerSpan>, tokens: seq<Token>, i: nat)
    requires i < |tokens|
    ensures var t := tokens[i];
      Remaining(done, text, cur, tokens[i..])
      == if !Counts(t) then Remaining(Flush(done, cur), text, None, tokens[i + 1..])
         else Remaining(
           if Continues(cur, t) then done else Flush(done, cur), text, Some(Grow(text, cur, t)), tokens[i + 1..])
  {
    assert tokens[i..][1..] == tokens[i + 1..];
  }

  method GroupTokens(text: string, tokens: seq<Token>) returns (spans: seq<NerSpan>)
    ensures spans == GroupFrom(text, None, tokens)
  {
    spans := [];
    var cur: Option<NerSpan> := None;
    ghost var all := GroupFrom(text, None, tokens);
    for i := 0 to |tokens|
      invariant Remaining(spans, text, cur, tokens[i..]) == all
    {
      var t := tokens[i];
      var ent := LabelOf(t.labelId);
      GroupStep(spans, text, cur, tokens, i);
      if ent == None || t.end == 0 {
        if cur != None {
          spans := spans + [cur.value];
          cur := None;
        }
        continue;
      }
      if cur == None || cur.value.entityType != ent.value || t.start > cur.value.end + 1 {
        if cur != None {
          spans := spans + [cur.value];
        }
        cur := Some(NerSpan(t.start, t.end, Slice(text, t.start, t.end), ent.value));
      } else {
        cur := Some(NerSpan(cur.value.start, t.end, Slice(text, cur.value.start, t.end), ent.value));
      }
    }
    if cur != None {
      spans := spans + [cur.value];
    }
  }

  // ----- What the groups are -----

  /** Tokens as a tokenizer yields them: those with a place are non-empty, inside the text, from `from` on, in order. */
  ghost predicate InOrder(text: string, tokens: seq<Token>, from: int) {
    && (forall i :: 0 <= i < |tokens| && tokens[i].end != 0 ==> from <= tokens[i].start < tokens[i].end <= |text|)
    && (forall i, j :: 0 <= i < j < |tokens| && tokens[i].end != 0 && tokens[j].end != 0 ==>
      tokens[i].end <= tokens[j].start)
  }

  ghost predicate CurOk(text: string, cur: Option<NerSpan>, tokens: seq<Token>) {
    if cur == None then InOrder(text, tokens, 0) else Sourced(text, cur.value) && InOrder(text, tokens, cur.value.end)
  }

  lemma GrowOk(text: string, cur: Option<NerSpan>, tokens: seq<Token>)
    requires tokens != [] && CurOk(text, cur, tokens) && Counts(tokens[0])
    ensures CurOk(text, Some(Grow(text, cur, tokens[0])), tokens[1..])
  {
    assert forall i :: 0 <= i < |tokens[1..]| ==> tokens[1..][i] == tokens[i + 1];
  }

  lemma DropOk(text: string, cur: Option<NerSpan>, tokens: seq<Token>)
    requires tokens != [] && CurOk(text, cur, tokens)
    ensures CurOk(text, None, tokens[1..]) && CurOk(text, cur, tokens[1..])
  {
    assert forall i :: 0 <= i < |tokens[1..]| ==> tokens[1..][i] == tokens[i + 1];
  }

  /** Spans in text order, disjoint, each its own slice of the text, none before `from`. */
  ghost predicate Proper(text: string, spans: seq<NerSpan>, from: int) {
    && (forall i :: 0 <= i < |spans| ==> Sourced(text, spans[i]) && from <= spans[i].start)
    && (forall i, j :: 0 <= i < j < |spans| ==> spans[i].end <= spans[j].start)
  }

  lemma ProperCons(text: string, s: NerSpan, rest: seq<NerSpan>)
    requires Sourced(text, s) && Proper(text, rest, s.end)
    ensures Proper(text, [s] + rest, s.start)
  {
  }

  /** Later groups start no earlier than the tokens they are built from. */
  lemma {:induction false} GroupsFrom(text: string, tokens: seq<Token>, from: nat)
    requires InOrder(text, tokens, from)
    ensures Proper(text, GroupFrom(text, None, tokens), from)
    decreases |tokens|, 0
  {
    if tokens == [] {
    } else {
      assert forall i :: 0 <= i < |tokens[1..]| ==> tokens[1..][i] == tokens[i + 1];
      if Counts(tokens[0]) {
        GroupsProper(text, Grow(text, None, tokens[0]), tokens[1..]);
      } else {
        GroupsFrom(text, tokens[1..], from);
      }
    }
  }

  lemma {:induction false} GroupsProper(text: string, cur: NerSpan, tokens: seq<Token>)
    requires Sourced(text, cur) && InOrder(text, tokens, cur.end)
    ensures Proper(text, GroupFrom(text, Some(cur), tokens), cur.start)
    decreases |tokens|, 1
  {
    if tokens == [] {
      ProperCons(text, cur, []);
      assert [cur] + [] == [cur];
    } else {
      var t, rest := tokens[0], tokens[1..];
      assert forall i :: 0 <= i < |rest| ==> rest[i] == tokens[i + 1];
      if !Counts(t) {
        GroupsFrom(text, rest, cur.end);
        ProperCons(text, cur, GroupFrom(text, None, rest));
      } else {
        var next := Grow(text, Some(cur), t);
        GroupsProper(text, next, rest);
        if !Continues(Some(cur), t) {
          ProperCons(text, cur, GroupFrom(text, Some(next), rest));
        }
      }
    }
  }

  /** Some span of the token's own type contains it. */
  ghost predicate InGroup(spans: seq<NerSpan>, t: Token) {
    exists s :: s in spans && LabelOf(t.labelId) == Some(s.entityType) && s.start <= t.start && t.end <= s.end
  }

  lemma {:induction false} CurKept(text: string, cur: NerSpan, tokens: seq<Token>)
    requires Sourced(text, cur) && InOrder(text, tokens, cur.end)
    ensures exists s :: s in GroupFrom(text, Some(cur), tokens)
                        && s.entityType == cur.entityType && s.start == cur.start && cur.end <= s.end
    decreases |tokens|
  {
    if tokens == [] {
      assert cur in GroupFrom(text, Some(cur), tokens);
    } else {
      var t := tokens[0];
      assert forall i :: 0 <= i < |tokens[1..]| ==> tokens[1..][i] == tokens[i + 1];
      if Counts(t) && Continues(Some(cur), t) {
        CurKept(text, Grow(text, Some(cur), t), tokens[1..]);
      } else {
        assert cur in Emit(Some(cur));
      }
    }
  }

  lemma {:induction false} EachTokenGrouped(text: string, cur: Option<NerSpan>, tokens: seq<Token>, k: nat)
    requires CurOk(text, cur, tokens) && k < |tokens| && Counts(tokens[k])
    ensures InGroup(GroupFrom(text, cur, tokens), tokens[k])
    decreases |tokens|
  {
    var t, rest := tokens[0], tokens[1..];
    DropOk(text, cur, tokens);
    if k == 0 {
      var next := Grow(text, cur, t);
      GrowOk(text, cur, tokens);
      CurKept(text, next, rest);
      var s :| s in GroupFrom(text, Some(next), rest) && s.entityType == next.entityType && s.start == next.start
        && next.end <= s.end;
      assert s in GroupFrom(text, cur, tokens);
    } else {
      assert rest[k - 1] == tokens[k];
      var next := if Counts(t) then Some(Grow(text, cur, t)) else None;
      if Counts(t) { GrowOk(text, cur, tokens); }
      EachTokenGrouped(text, next, rest, k - 1);
      var s :| s in GroupFrom(text, next, rest) && LabelOf(tokens[k].labelId) == Some(s.entityType)
        && s.start <= tokens[k].start && tokens[k].end <= s.end;
      assert s in GroupFrom(text, cur, tokens);
    }
  }

  /** For tokens in order: the spans come in order, disjoint and with their own text, and every labelled
      token is inside exactly one span, one of its own type. */
  lemma TokensGrouped(text: string, tokens: seq<Token>, k: nat)
    requires InOrder(text, tokens, 0) && k < |tokens| && Counts(tokens[k])
    ensures var spans := GroupFrom(text, None, tokens);
      && Proper(text, spans, 0) && InGroup(spans, tokens[k])
      && forall i, j | 0 <= i < |spans| && 0 <= j < |spans| ::
        Inside(tokens[k].start, spans[i]) && Inside(tokens[k].start, spans[j]) ==> i == j
  {
    GroupsFrom(text, tokens, 0);
    EachTokenGrouped(text, None, tokens, k);
  }

  // ----- Which tokens share a span -----

  /** Token k + 1 continues what token k is part of. */
  predicate Linked(tokens: seq<Token>, k: int)
    requires 0 <= k < |tokens| - 1
  {
    && Counts(tokens[k]) && Counts(tokens[k + 1])
    && LabelOf(tokens[k].labelId) == LabelOf(tokens[k + 1].labelId) && tokens[k + 1].start <= tokens[k].end + 1
  }

  /** Tokens a to b all count, have one type, and follow one another with gaps of at most one character. */
  ghost predicate Chain(tokens: seq<Token>, a: int, b: int) {
    && 0 <= a <= b < |tokens| && Counts(tokens[a])
    && forall k :: a <= k < b ==> Linked(tokens, k)
  }

  ghost predicate MaximalChain(tokens: seq<Token>, a: int, b: int) {
    && Chain(tokens, a, b)
    && (a > 0 ==> !Linked(tokens, a - 1))
    && (b < |tokens| - 1 ==> !Linked(tokens, b))
  }

  lemma {:induction false} ChainType(tokens: seq<Token>, a: int, b: int)
    requires Chain(tokens, a, b)
    ensures Counts(tokens[b]) && LabelOf(tokens[b].labelId) == LabelOf(tokens[a].labelId)
    decreases b - a
  {
    if a == b {
    } else {
      ChainType(tokens, a, b - 1);
      assert Linked(tokens, b - 1);
    }
  }

  function ChainSpan(text: string, tokens: seq<Token>, a: int, b: int): NerSpan
    requires 0 <= a < |tokens| && 0 <= b < |tokens| && Counts(tokens[a])
  {
    NerSpan(tokens[a].start, tokens[b].end, Slice(text, tokens[a].start, tokens[b].end),
      LabelOf(tokens[a].labelId).value)
  }

  /** The span being built before token k: that of the tokens from i on, none when i is k. */
  ghost predicate Building(text: string, tokens: seq<Token>, cur: Option<NerSpan>, i: int, k: int) {
    && 0 <= i <= k <= |tokens|
    && (0 < i < |tokens| ==> !Linked(tokens, i - 1))
    && (if i == k then cur == None else Chain(tokens, i, k - 1) && cur == Some(ChainSpan(text, tokens, i, k - 1)))
  }

  /** s is the span of a maximal chain that starts at i or later. */
  ghost predicate FromChain(text: string, tokens: seq<Token>, i: int, s: NerSpan) {
    exists a, b :: i <= a && MaximalChain(tokens, a, b) && s == ChainSpan(text, tokens, a, b)
  }

  /** A span that ends before k is that of the one maximal chain between i and k. */
  lemma ClosedChain(tokens: seq<Token>, i: int, k: int, a: int, b: int)
    requires 0 <= i < k <= |tokens| && Chain(tokens, i, k - 1)
    requires i > 0 ==> !Linked(tokens, i - 1)
    requires k < |tokens| ==> !Linked(tokens, k - 1)
    requires MaximalChain(tokens, a, b) && i <= a < k
    ensures a == i && b == k - 1
  {
  }

  /** Closing the span being built leaves it, and what starts at k or later. */
  lemma Closing(text: string, tokens: seq<Token>, cur: Option<NerSpan>, i: int, k: int, s: NerSpan)
    requires Building(text, tokens, cur, i, k) && (0 < k < |tokens| ==> !Linked(tokens, k - 1))
    ensures FromChain(text, tokens, i, s) <==> s in Emit(cur) || FromChain(text, tokens, k, s)
  {
    if i < k {
      assert MaximalChain(tokens, i, k - 1);
      if FromChain(text, tokens, i, s) && !FromChain(text, tokens, k, s) {
        var a, b :| i <= a && MaximalChain(tokens, a, b) && s == ChainSpan(text, tokens, a, b);
        assert a < k;
        ClosedChain(tokens, i, k, a, b);
      }
    }
  }

  lemma NoneAt(text: string, tokens: seq<Token>, k: int, s: NerSpan)
    requires 0 <= k < |tokens| && !Counts(tokens[k])
    ensures FromChain(text, tokens, k, s) <==> FromChain(text, tokens, k + 1, s)
  {
    if FromChain(text, tokens, k, s) {
      var a, b :| k <= a && MaximalChain(tokens, a, b) && s == ChainSpan(text, tokens, a, b);
      assert a != k;
    }
  }

  /** One token further: what is closed, what is built next, and where its chain starts. */
  lemma NextChain(text: string, tokens: seq<Token>, cur: Option<NerSpan>, i: int, k: int, s: NerSpan)
    returns (next: Option<NerSpan>, j: int)
    requires Building(text, tokens, cur, i, k) && k < |tokens|
    ensures Building(text, tokens, next, j, k + 1)
    ensures FromChain(text, tokens, i, s) <==> (j > i && s in Emit(cur)) || FromChain(text, tokens, j, s)
    ensures s in GroupFrom(text, cur, tokens[k..])
       <==> (j > i && s in Emit(cur)) || s in GroupFrom(text, next, tokens[k + 1..])
  {
    var t := tokens[k];
    assert tokens[k..][0] == t && tokens[k..][1..] == tokens[k + 1..];
    if i < k { ChainType(tokens, i, k - 1); }
    if !Counts(t) {
      next, j := None, k + 1;
      Closing(text, tokens, cur, i, k, s);
      NoneAt(text, tokens, k, s);
    } else if Continues(cur, t) {
      next, j := Some(Grow(text, cur, t)), i;
      assert Linked(tokens, k - 1);
    } else {
      next, j := Some(Grow(text, cur, t)), k;
      assert k > 0 && i < k ==> !Linked(tokens, k - 1);
      Closing(text, tokens, cur, i, k, s);
      assert Chain(tokens, k, k);
    }
  }

  lemma {:induction false} GroupsAreChains(
      text: string, tokens: seq<Token>, cur: Option<NerSpan>, i: int, k: int, s: NerSpan)
    requires Building(text, tokens, cur, i, k)
    ensures s in GroupFrom(text, cur, tokens[k..]) <==> FromChain(text, tokens, i, s)
    decreases |tokens| - k
  {
    if k == |tokens| {
      Closing(text, tokens, cur, i, k, s);
    } else {
      var next, j := NextChain(text, tokens, cur, i, k, s);
      GroupsAreChains(text, tokens, next, j, k + 1, s);
    }
  }

  /** The spans are exactly those of the maximal chains: runs of labelled tokens of one type with gaps of at
      most one character, as long as they can be. */
  lemma SpansAreChains(text: string, tokens: seq<Token>, s: NerSpan)
    ensures s in GroupFrom(text, None, tokens) <==> FromChain(text, tokens, 0, s)
  {
    assert tokens[0..] == tokens;
    GroupsAreChains(text, tokens, None, 0, 0, s);
  }

  ghost predicate Holds(s: NerSpan, t: Token) {
    s.start <= t.start && t.end <= s.end
  }

  /** A token inside a chain's span is one of the chain. */
  lemma HeldInChain(text: string, tokens: seq<Token>, a: int, b: int, k: nat)
    requires InOrder(text, tokens, 0) && Chain(tokens, a, b) && k < |tokens| && Counts(tokens[k])
    ensures Holds(ChainSpan(text, tokens, a, b), tokens[k]) <==> a <= k <= b
  {
    ChainType(tokens, a, b);
  }

  lemma ChainHolding(text: string, tokens: seq<Token>, s: NerSpan, k: nat) returns (a: int, b: int)
    requires InOrder(text, tokens, 0) && k < |tokens| && Counts(tokens[k])
    requires s in GroupFrom(text, None, tokens) && Holds(s, tokens[k])
    ensures MaximalChain(tokens, a, b) && s == ChainSpan(text, tokens, a, b) && a <= k <= b
  {
    SpansAreChains(text, tokens, s);
    a, b :| 0 <= a && MaximalChain(tokens, a, b) && s == ChainSpan(text, tokens, a, b);
    HeldInChain(text, tokens, a, b, k);
  }

  /** A maximal chain that meets another one contains its end. */
  lemma ChainReaches(tokens: seq<Token>, i: int, j: int, a: int, b: int)
    requires Chain(tokens, i, j) && MaximalChain(tokens, a, b) && i <= b
    ensures j <= b
  {
  }

  /** Two labelled tokens end up in one span if and only if every token from one to the other is labelled with
      the same type and follows with a gap of at most one character. */
  lemma TokensShareSpan(text: string, tokens: seq<Token>, i: nat, j: nat)
    requires InOrder(text, tokens, 0) && i <= j < |tokens| && Counts(tokens[i]) && Counts(tokens[j])
    ensures (exists s :: s in GroupFrom(text, None, tokens) && Holds(s, tokens[i]) && Holds(s, tokens[j]))
       <==> Chain(tokens, i, j)
  {
    var spans := GroupFrom(text, None, tokens);
    if s :| s in spans && Holds(s, tokens[i]) && Holds(s, tokens[j]) {
      var a, b := ChainHolding(text, tokens, s, i);
      HeldInChain(text, tokens, a, b, j);
    }
    if Chain(tokens, i, j) {
      TokensGrouped(text, tokens, i);
      var s :| s in spans && Holds(s, tokens[i]);
      var a, b := ChainHolding(text, tokens, s, i);
      ChainReaches(tokens, i, j, a, b);
      HeldInChain(text, tokens, a, b, j);
    }
  }

  /** A token alone: what each label of the model becomes. */
  lemma LabelsBecome(text: string, t: Token)
    requires t.end != 0
    ensures var spans := GroupFrom(text, None, [t]);
      && (t.labelId in {1, 2} ==> spans == [NerSpan(t.start, t.end, Slice(text, t.start, t.end), "person")])
      && (t.labelId in {3, 4} ==> spans == [NerSpan(t.start, t.end, Slice(text, t.start, t.end), "organization")])
      && (t.labelId in {5, 6} ==> spans == [NerSpan(t.start, t.end, Slice(text, t.start, t.end), "location")])
      && (t.labelId !in {1, 2, 3, 4, 5, 6} ==> spans == [])
  {
    assert [t][1..] == [];
  }
}
