/** Names part by part: which part of the original each part of its synthetic stands for, up to the reader's text. */
module NameParts {
  import opened Results
  import opened Sequences
  import opened Text
  import opened Components
  import opened Substitution
  import opened ForwardProperties
  import opened Replies
  import opened RoundTrip

  // ----- Words -----

  /** Some character is not a space. */
  ghost predicate HoldsWord(s: string) {
    exists i :: 0 <= i < |s| && !IsSpace(s[i])
  }

  lemma {:induction false} SplitFromPrefix(a: string, s: string, word: string)
    requires forall i :: 0 <= i < |a| ==> !IsSpace(a[i])
    ensures SplitFrom(a + s, word) == SplitFrom(s, word + a)
  {
    if a == "" {
      assert a + s == s && word + a == word;
    } else {
      assert (a + s)[0] == a[0] && (a + s)[1..] == a[1..] + s;
      SplitFromPrefix(a[1..], s, word + [a[0]]);
      assert word + [a[0]] + a[1..] == word + a;
    }
  }

  /** A word before a space is the first word. */
  lemma SplitFirstWord(a: string, w: char, m: string)
    requires IsWord(a) && IsSpace(w)
    ensures Split(a + [w] + m) == [a] + Split(m)
  {
    assert a + [w] + m == a + ([w] + m) && "" + a == a;
    SplitFromPrefix(a, [w] + m, "");
    assert ([w] + m)[0] == w && ([w] + m)[1..] == m;
  }

  lemma {:induction false} SplitFromSuffix(m: string, w: char, b: string, word: string)
    requires IsWord(b) && IsSpace(w)
    ensures SplitFrom(m + [w] + b, word) == SplitFrom(m, word) + [b]
  {
    if m == "" {
      assert (m + [w] + b)[0] == w && (m + [w] + b)[1..] == b;
      assert b + "" == b && "" + b == b;
      SplitFromPrefix(b, "", "");
    } else {
      assert (m + [w] + b)[0] == m[0] && (m + [w] + b)[1..] == m[1..] + [w] + b;
      if IsSpace(m[0]) {
        SplitFromSuffix(m[1..], w, b, "");
      } else {
        SplitFromSuffix(m[1..], w, b, word + [m[0]]);
      }
    }
  }

  /** A word behind a space is the last word. */
  lemma SplitLastWord(m: string, w: char, b: string)
    requires IsWord(b) && IsSpace(w)
    ensures Split(m + [w] + b) == Split(m) + [b]
  {
    SplitFromSuffix(m, w, b, "");
  }

  lemma {:induction false} SplitFromHolds(s: string, word: string)
    ensures SplitFrom(s, word) != [] <==> word != "" || HoldsWord(s)
  {
    if s == "" {
    } else {
      if HoldsWord(s) {
        var i :| 0 <= i < |s| && !IsSpace(s[i]);
        if i > 0 { assert !IsSpace(s[1..][i - 1]); }
      }
      if HoldsWord(s[1..]) {
        var i :| 0 <= i < |s[1..]| && !IsSpace(s[1..][i]);
        assert !IsSpace(s[i + 1]);
      }
      SplitFromHolds(s[1..], if IsSpace(s[0]) then "" else word + [s[0]]);
    }
  }

  lemma SplitOneWord(a: string)
    requires IsWord(a)
    ensures Split(a) == [a]
  {
    assert a + "" == a && "" + a == a;
    SplitFromPrefix(a, "", "");
  }

  /** Among the ASCII characters the spaces are the five from tab to carriage return, the four separators, and the
      space itself. */
  lemma AsciiSpaces(c: char)
    requires (c as int) < 128
    ensures IsSpace(c) <==> c as int in {9, 10, 11, 12, 13, 28, 29, 30, 31, 32}
  {
  }

  // ----- What the parts stand for -----

  /** A name of at least two words, taken apart at a space behind its first word. */
  ghost predicate StartsWith(name: string, first: string) {
    exists w, rest :: IsSpace(w) && IsWord(first) && HoldsWord(rest) && name == first + [w] + rest
  }

  /** A name of at least two words, taken apart at a space before its last word. */
  ghost predicate EndsWith(name: string, last: string) {
    exists rest, w :: IsSpace(w) && IsWord(last) && HoldsWord(rest) && name == rest + [w] + last
  }

  lemma FirstWord(name: string, first: string)
    requires StartsWith(name, first)
    ensures |Split(name)| >= 2 && Split(name)[0] == first
  {
    var w, rest :| IsSpace(w) && IsWord(first) && HoldsWord(rest) && name == first + [w] + rest;
    SplitFirstWord(first, w, rest);
    SplitFromHolds(rest, "");
  }

  lemma LastWord(name: string, last: string)
    requires EndsWith(name, last)
    ensures |Split(name)| >= 2 && Split(name)[|Split(name)| - 1] == last
  {
    var rest, w :| IsSpace(w) && IsWord(last) && HoldsWord(rest) && name == rest + [w] + last;
    SplitLastWord(rest, w, last);
    SplitFromHolds(rest, "");
  }

  lemma {:induction false} HonorificKinds(table: seq<(string, seq<string>)>, oLast: string, sLast: string)
    ensures forall c :: c in AllHonorifics(table, oLast, sLast) ==> c.kind == Honorific
  {
    HonorificsAreHonorific(table, oLast, sLast);
  }

  /** The one first-name component of a name pair is first word for first word. */
  lemma FirstForFirst(original: string, synthetic: string, a: string, b: string)
    requires StartsWith(original, a) && StartsWith(synthetic, b)
    ensures Component(b, a, First, None) in Decompose("person", original, synthetic)
    ensures forall c :: c in Decompose("person", original, synthetic) && c.kind == First ==>
      c == Component(b, a, First, None)
  {
    FirstWord(original, a);
    FirstWord(synthetic, b);
    var o, s := Split(original), Split(synthetic);
    var cs, hs := Decompose("person", original, synthetic), AllHonorifics(HONORIFICS, o[|o| - 1], s[|s| - 1]);
    HonorificKinds(HONORIFICS, o[|o| - 1], s[|s| - 1]);
    assert cs[1] == Component(b, a, First, None);
    PartsAndHonorifics(cs, cs[0], cs[1], cs[2], hs);
  }

  lemma PartsAndHonorifics(cs: seq<Component>, x: Component, y: Component, z: Component, hs: seq<Component>)
    requires cs == [x] + ([y, z] + hs)
    ensures forall c :: c in cs <==> c == x || c == y || c == z || c in hs
  {
  }

  /** The one last-name component of a name pair is last word for last word. */
  lemma LastForLast(original: string, synthetic: string, a: string, b: string)
    requires EndsWith(original, a) && EndsWith(synthetic, b)
    ensures Component(b, a, Last, None) in Decompose("person", original, synthetic)
    ensures forall c :: c in Decompose("person", original, synthetic) && c.kind == Last ==>
      c == Component(b, a, Last, None)
  {
    LastWord(original, a);
    LastWord(synthetic, b);
    var o, s := Split(original), Split(synthetic);
    var cs, hs := Decompose("person", original, synthetic), AllHonorifics(HONORIFICS, o[|o| - 1], s[|s| - 1]);
    HonorificKinds(HONORIFICS, o[|o| - 1], s[|s| - 1]);
    assert cs[2] == Component(b, a, Last, None);
    PartsAndHonorifics(cs, cs[0], cs[1], cs[2], hs);
  }

  /** The canonical honorifics, language by language. */
  predicate IsPrefix(language: string, prefix: string) {
    || (language == "en" && prefix in ["Mr.", "Mrs.", "Ms.", "Dr."])
    || (language == "fr" && prefix in ["M.", "Mme", "Mlle", "Dr"])
    || (language == "ar" && prefix in ["السيد", "السيدة", "الآنسة", "الدكتور"])
  }

  function WithPrefix(language: string, prefix: string, a: string, b: string): Component {
    Component(prefix + " " + b, prefix + " " + a, Honorific, Some(language))
  }

  lemma FormsOf(language: string, prefixes: seq<string>, a: string, b: string)
    ensures forall c :: c in HonorificForms(language, prefixes, a, b) <==>
      exists p :: p in prefixes && c == WithPrefix(language, p, a, b)
  {
    var forms := HonorificForms(language, prefixes, a, b);
    forall c | c in forms ensures exists p :: p in prefixes && c == WithPrefix(language, p, a, b) {
      var i :| 0 <= i < |forms| && forms[i] == c;
      assert prefixes[i] in prefixes && c == WithPrefix(language, prefixes[i], a, b);
    }
    forall p | p in prefixes ensures WithPrefix(language, p, a, b) in forms {
      var i :| 0 <= i < |prefixes| && prefixes[i] == p;
      assert forms[i] == WithPrefix(language, p, a, b);
    }
  }

  lemma AllForms(a: string, b: string)
    ensures forall c :: c in AllHonorifics(HONORIFICS, a, b) <==>
      exists l, p :: IsPrefix(l, p) && c == WithPrefix(l, p, a, b)
  {
    var en, fr, ar := HONORIFICS[0], HONORIFICS[1], HONORIFICS[2];
    var rest := HONORIFICS[1..];
    assert rest[0] == fr && rest[1..][0] == ar && rest[1..][1..] == [];
    assert AllHonorifics(rest[1..], a, b) == HonorificForms(ar.0, ar.1, a, b) + [];
    assert AllHonorifics(rest, a, b) == HonorificForms(fr.0, fr.1, a, b) + AllHonorifics(rest[1..], a, b);
    assert AllHonorifics(HONORIFICS, a, b) == HonorificForms(en.0, en.1, a, b) + AllHonorifics(rest, a, b);
    FormsOf(en.0, en.1, a, b);
    FormsOf(fr.0, fr.1, a, b);
    FormsOf(ar.0, ar.1, a, b);
    forall c | c in AllHonorifics(HONORIFICS, a, b)
      ensures exists l, p :: IsPrefix(l, p) && c == WithPrefix(l, p, a, b)
    {
      if c in HonorificForms(en.0, en.1, a, b) {
        var p :| p in en.1 && c == WithPrefix(en.0, p, a, b);
        assert IsPrefix("en", p);
      } else if c in HonorificForms(fr.0, fr.1, a, b) {
        var p :| p in fr.1 && c == WithPrefix(fr.0, p, a, b);
        assert IsPrefix("fr", p);
      } else {
        var p :| p in ar.1 && c == WithPrefix(ar.0, p, a, b);
        assert IsPrefix("ar", p);
      }
    }
  }

  /** The honorific components of a name pair are each canonical honorific before the two last words, and no others. */
  lemma HonorificsForLast(original: string, synthetic: string, a: string, b: string, c: Component)
    requires EndsWith(original, a) && EndsWith(synthetic, b) && c.kind == Honorific
    ensures c in Decompose("person", original, synthetic) <==>
      exists l, p :: IsPrefix(l, p) && c == WithPrefix(l, p, a, b)
  {
    LastWord(original, a);
    LastWord(synthetic, b);
    var cs := Decompose("person", original, synthetic);
    AllForms(a, b);
    PartsAndHonorifics(cs, cs[0], cs[1], cs[2], AllHonorifics(HONORIFICS, a, b));
  }

  /** A name of one word, on either side, has its full form only; so has everything that is not a person. */
  lemma WholeOnly(entityType: string, original: string, synthetic: string)
    requires entityType != "person" || IsWord(original) || IsWord(synthetic)
    ensures Decompose(entityType, original, synthetic) == [Component(synthetic, original, Full, None)]
  {
    if entityType == "person" && IsWord(original) {
      SplitOneWord(original);
    } else if entityType == "person" {
      SplitOneWord(synthetic);
    }
  }

  // ----- What the reader gets -----

  /** Surface s, read by the reversal of these pieces, has no candidate but those for o. */
  ghost predicate OnlyMeans(pieces: seq<Piece>, s: string, o: string) {
    forall c :: c in EchoCandidates(pieces) && c.surface == s ==> c.original == o
  }

  /** Piece i is a hole, and the last one filled with its synthetic: the one the session map and the index know. */
  ghost predicate Stored(pieces: seq<Piece>, i: int) {
    0 <= i < |pieces| && pieces[i].Hole? && LastHole(pieces, pieces[i].synthetic, i)
  }

  lemma IndexHolds(pieces: seq<Piece>, i: int)
    requires Stored(pieces, i)
    ensures var d, s := pieces[i].detection, pieces[i].synthetic;
      && s in EntriesOf(pieces) && s in IndexOf(pieces).values && s in IndexOf(pieces).keys
      && IndexOf(pieces).values[s] == Decompose(d.entityType, d.text, s)
  {
    LastWriteWins(pieces);
    IndexAgrees(pieces);
  }

  lemma CandidateOf(comps: seq<Component>, c: Component)
    requires c in comps
    ensures Candidate(c.surface, c.originalSurface, c.kind == Full) in FromComponents(comps)
  {
    var j :| 0 <= j < |comps| && comps[j] == c;
    FromComponentsMembers(comps);
    assert FromComponents(comps)[j] == Candidate(c.surface, c.originalSurface, c.kind == Full);
  }

  /** A component of a spliced name is a candidate of the reversal. */
  lemma ComponentIsCandidate(pieces: seq<Piece>, i: int, c: Component)
    requires Stored(pieces, i)
    requires var d := pieces[i].detection; c in Decompose(d.entityType, d.text, pieces[i].synthetic)
    ensures Candidate(c.surface, c.originalSurface, c.kind == Full) in EchoCandidates(pieces)
  {
    var s, index, entries := pieces[i].synthetic, IndexOf(pieces), EntriesOf(pieces);
    IndexHolds(pieces, i);
    CandidateOf(index.values[s], c);
    CandidatesOfMembers(index.keys, index.values, entries);
    SortKeepsElements(CandidatesOf(index.keys, index.values, entries), LongerFirst);
  }

  /** It means its part of the original unless its surface has another meaning. */
  lemma ComponentMeans(pieces: seq<Piece>, i: int, c: Component)
    requires Stored(pieces, i)
    requires var d := pieces[i].detection; c in Decompose(d.entityType, d.text, pieces[i].synthetic)
    requires c.surface != "" && OnlyMeans(pieces, c.surface, c.originalSurface)
    ensures exists k :: k in EchoCandidates(pieces) && k.surface == c.surface
    ensures var meaning := Meaning(EchoCandidates(pieces));
      c.surface in meaning && meaning[c.surface] == c.originalSurface
  {
    ComponentIsCandidate(pieces, i, c);
    MeaningIsFirst(EchoCandidates(pieces), c.surface);
    AgreedMeaning(EchoCandidates(pieces), c.surface, c.originalSurface);
  }

  /** None of the surfaces tried behind those that read s stands in o. */
  ghost predicate NothingShorterIn(pieces: seq<Piece>, s: string, o: string) {
    forall k :: FirstWith(EchoCandidates(pieces), s, k) ==>
      forall i :: k < i < |EchoCandidates(pieces)| ==>
        var c := EchoCandidates(pieces)[i];
        c.surface == "" || c.surface == c.original || !Contains(o, c.surface)
  }

  lemma {:induction false} FirstCandidate(cands: seq<Candidate>, s: string) returns (k: nat)
    requires exists c :: c in cands && c.surface == s
    ensures FirstWith(cands, s, k)
  {
    if cands[0].surface == s {
      k := 0;
    } else {
      assert cands == [cands[0]] + cands[1..];
      var j := FirstCandidate(cands[1..], s);
      assert forall i :: 0 <= i < |cands[1..]| ==> cands[1..][i] == cands[i + 1];
      k := j + 1;
    }
  }

  /** A reply that is one component's surface comes back as that component's original. */
  lemma ComponentRead(pieces: seq<Piece>, i: int, c: Component)
    requires Stored(pieces, i)
    requires var d := pieces[i].detection; c in Decompose(d.entityType, d.text, pieces[i].synthetic)
    requires c.surface != "" && OnlyMeans(pieces, c.surface, c.originalSurface)
    requires NothingShorterIn(pieces, c.surface, c.originalSurface)
    ensures ReverseAll(c.surface, EchoCandidates(pieces)).text == c.originalSurface
  {
    var cands := EchoCandidates(pieces);
    ComponentMeans(pieces, i, c);
    var k := FirstCandidate(cands, c.surface);
    assert cands[k] in cands;
    SurfaceReplyRead(IndexOf(pieces), EntriesOf(pieces), k);
  }

  /** A reply that is the synthetic's first name, with no other meaning and no shorter surface in what it stands for,
      comes back as the original's first name. */
  lemma FirstNameRead(pieces: seq<Piece>, i: int, a: string, b: string)
    requires Stored(pieces, i) && pieces[i].detection.entityType == "person"
    requires StartsWith(pieces[i].detection.text, a) && StartsWith(pieces[i].synthetic, b)
    requires OnlyMeans(pieces, b, a) && NothingShorterIn(pieces, b, a)
    ensures ReverseAll(b, EchoCandidates(pieces)).text == a
  {
    FirstForFirst(pieces[i].detection.text, pieces[i].synthetic, a, b);
    assert b != "" by {
      FirstWord(pieces[i].synthetic, b);
      SplitFromWords(pieces[i].synthetic, "");
    }
    ComponentRead(pieces, i, Component(b, a, First, None));
  }

  /** Likewise the last name. */
  lemma LastNameRead(pieces: seq<Piece>, i: int, a: string, b: string)
    requires Stored(pieces, i) && pieces[i].detection.entityType == "person"
    requires EndsWith(pieces[i].detection.text, a) && EndsWith(pieces[i].synthetic, b)
    requires OnlyMeans(pieces, b, a) && NothingShorterIn(pieces, b, a)
    ensures ReverseAll(b, EchoCandidates(pieces)).text == a
  {
    LastForLast(pieces[i].detection.text, pieces[i].synthetic, a, b);
    assert b != "" by {
      LastWord(pieces[i].synthetic, b);
      SplitFromWords(pieces[i].synthetic, "");
    }
    ComponentRead(pieces, i, Component(b, a, Last, None));
  }

  /** And the last name behind any of the canonical honorifics, which stays as it is. */
  lemma HonorificRead(pieces: seq<Piece>, i: int, a: string, b: string, language: string, prefix: string)
    requires Stored(pieces, i) && pieces[i].detection.entityType == "person"
    requires EndsWith(pieces[i].detection.text, a) && EndsWith(pieces[i].synthetic, b) && IsPrefix(language, prefix)
    requires OnlyMeans(pieces, prefix + " " + b, prefix + " " + a)
    requires NothingShorterIn(pieces, prefix + " " + b, prefix + " " + a)
    ensures ReverseAll(prefix + " " + b, EchoCandidates(pieces)).text == prefix + " " + a
  {
    var c := WithPrefix(language, prefix, a, b);
    HonorificsForLast(pieces[i].detection.text, pieces[i].synthetic, a, b, c);
    ComponentRead(pieces, i, c);
  }
}
