/** Component decomposition: the surfaces of a synthetic that may come back in a reply. */
module Components {
  import opened Results

  datatype Kind = Full | First | Last | Honorific

  datatype Component = Component(surface: string, originalSurface: string, kind: Kind, language: Option<string>)

  const HONORIFICS: seq<(string, seq<string>)> := [
    ("en", ["Mr.", "Mrs.", "Ms.", "Dr."]),
    ("fr", ["M.", "Mme", "Mlle", "Dr"]),
    ("ar", ["السيد", "السيدة", "الآنسة", "الدكتور"])
  ]

  /** Python's `str.isspace` for one character. */
  predicate IsSpace(c: char) {
    var n := c as int;
    0x09 <= n <= 0x0d || 0x1c <= n <= 0x20 || n == 0x85 || n == 0xa0 || n == 0x1680
    || 0x2000 <= n <= 0x200a || n == 0x2028 || n == 0x2029 || n == 0x202f || n == 0x205f || n == 0x3000
  }

  function Word(word: string): seq<string> {
    if word == "" then [] else [word]
  }

  function SplitFrom(s: string, word: string): seq<string> {
    if s == "" then Word(word)
    else if IsSpace(s[0]) then Word(word) + SplitFrom(s[1..], "")
    else SplitFrom(s[1..], word + [s[0]])
  }

  /** Python's `s.split()`. */
  function Split(s: string): seq<string> {
    SplitFrom(s, "")
  }

  ghost predicate IsWord(w: string) {
    w != "" && forall i :: 0 <= i < |w| ==> !IsSpace(w[i])
  }

  lemma {:induction false} SplitFromWords(s: string, word: string)
    requires word == "" || IsWord(word)
    ensures forall w :: w in SplitFrom(s, word) ==> IsWord(w)
  {
    if s == "" {
    } else {
      if IsSpace(s[0]) { SplitFromWords(s[1..], ""); } else { SplitFromWords(s[1..], word + [s[0]]); }
    }
  }

  /** The honorific forms of one language. */
  function HonorificForms(language: string, prefixes: seq<string>, oLast: string, sLast: string): seq<Component> {
    seq(|prefixes|, i requires 0 <= i < |prefixes| =>
      Component(prefixes[i] + " " + sLast, prefixes[i] + " " + oLast, Honorific, Some(language)))
  }

  function AllHonorifics(table: seq<(string, seq<string>)>, oLast: string, sLast: string): seq<Component> {
    if table == [] then []
    else HonorificForms(table[0].0, table[0].1, oLast, sLast) + AllHonorifics(table[1..], oLast, sLast)
  }

  function PersonComponents(original: string, synthetic: string): seq<Component> {
    var o, s := Split(original), Split(synthetic);
    [Component(synthetic, original, Full, None)]
    + if |o| < 2 || |s| < 2 then []
      else [Component(s[0], o[0], First, None), Component(s[|s| - 1], o[|o| - 1], Last, None)]
           + AllHonorifics(HONORIFICS, o[|o| - 1], s[|s| - 1])
  }

  function Decompose(entityType: string, original: string, synthetic: string): seq<Component> {
    if entityType == "person" then PersonComponents(original, synthetic)
    else [Component(synthetic, original, Full, None)]
  }

  lemma {:induction false} AllHonorificsAppend(
      table: seq<(string, seq<string>)>, row: (string, seq<string>), oLast: string, sLast: string)
    ensures AllHonorifics(table + [row], oLast, sLast)
         == AllHonorifics(table, oLast, sLast) + HonorificForms(row.0, row.1, oLast, sLast)
  {
    if table == [] {
      assert AllHonorifics([row], oLast, sLast) == HonorificForms(row.0, row.1, oLast, sLast)
        + AllHonorifics([], oLast, sLast);
    } else {
      AllHonorificsAppend(table[1..], row, oLast, sLast);
      assert (table + [row])[1..] == table[1..] + [row];
    }
  }

  method DecomposePerson(originalFull: string, syntheticFull: string) returns (components: seq<Component>)
    ensures components == PersonComponents(originalFull, syntheticFull)
  {
    components := [Component(syntheticFull, originalFull, Full, None)];
    var oParts, sParts := Split(originalFull), Split(syntheticFull);
    if |oParts| < 2 || |sParts| < 2 {
      return;
    }
    var oLast, sLast := oParts[|oParts| - 1], sParts[|sParts| - 1];
    components := components + [Component(sParts[0], oParts[0], First, None)];
    components := components + [Component(sLast, oLast, Last, None)];
    var honorifics := AddHonorifics(oLast, sLast);
    components := components + honorifics;
  }

  method AddHonorifics(oLast: string, sLast: string) returns (forms: seq<Component>)
    ensures forms == AllHonorifics(HONORIFICS, oLast, sLast)
  {
    forms := [];
    for i := 0 to |HONORIFICS|
      invariant forms == AllHonorifics(HONORIFICS[..i], oLast, sLast)
    {
      var (lang, prefixes) := HONORIFICS[i];
      ghost var before := forms;
      for j := 0 to |prefixes|
        invariant forms == before + HonorificForms(lang, prefixes[..j], oLast, sLast)
      {
        forms := forms + [Component(prefixes[j] + " " + sLast, prefixes[j] + " " + oLast, Honorific, Some(lang))];
      }
      assert prefixes[..|prefixes|] == prefixes;
      AllHonorificsAppend(HONORIFICS[..i], HONORIFICS[i], oLast, sLast);
      assert HONORIFICS[..i + 1] == HONORIFICS[..i] + [HONORIFICS[i]];
    }
    assert HONORIFICS[..|HONORIFICS|] == HONORIFICS;
  }

  lemma {:induction false} HonorificsAreHonorific(table: seq<(string, seq<string>)>, oLast: string, sLast: string)
    ensures forall c :: c in AllHonorifics(table, oLast, sLast) ==> c.kind == Honorific && c.surface != ""
    ensures forall c :: c in AllHonorifics(table, oLast, sLast) ==>
      exists prefix :: c.surface == prefix + " " + sLast && c.originalSurface == prefix + " " + oLast
  {
    if table == [] {
    } else {
      HonorificsAreHonorific(table[1..], oLast, sLast);
      var forms := HonorificForms(table[0].0, table[0].1, oLast, sLast);
      forall c | c in forms
        ensures c.kind == Honorific && c.surface != ""
        ensures exists prefix :: c.surface == prefix + " " + sLast && c.originalSurface == prefix + " " + oLast
      {
        var i :| 0 <= i < |forms| && forms[i] == c;
      }
    }
  }

  /** The full pair comes first and is the only full form; every partial surface can be searched for. */
  lemma DecomposeFullFirst(entityType: string, original: string, synthetic: string)
    ensures var cs := Decompose(entityType, original, synthetic);
      && cs != [] && cs[0] == Component(synthetic, original, Full, None)
      && forall i :: 0 < i < |cs| ==> cs[i].kind != Full && cs[i].surface != ""
  {
    var cs := Decompose(entityType, original, synthetic);
    var s, o := Split(synthetic), Split(original);
    SplitFromWords(synthetic, "");
    if entityType == "person" && |s| >= 2 && |o| >= 2 {
      var hs := AllHonorifics(HONORIFICS, o[|o| - 1], s[|s| - 1]);
      HonorificsAreHonorific(HONORIFICS, o[|o| - 1], s[|s| - 1]);
      assert s[0] in s && s[|s| - 1] in s;
      forall i | 0 < i < |cs| ensures cs[i].kind != Full && cs[i].surface != "" {
        if i >= 3 { assert cs[i] == hs[i - 3] && hs[i - 3] in hs; }
      }
    }
  }
}
