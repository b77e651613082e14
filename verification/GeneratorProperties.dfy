/** What a request gets for each entity type: the generator's values, by type, against the scanners and the seed. */
module GeneratorProperties {
  import opened Results
  import opened Text
  import opened Detections
  import opened CheckDigits
  import opened Scanners
  import opened Synthetic

  /** No digit touches what stands between the two. */
  predicate DigitFree(before: string, after: string) {
    (before != "" ==> !IsDigit(before[|before| - 1])) && (after != "" ==> !IsDigit(after[0]))
  }

  lemma RunInContext(before: string, s: string, after: string)
    requires s != "" && AllDigits(s) && DigitFree(before, after)
    ensures var text, p := before + s + after, |before|;
      MaximalRun(text, p, p + |s|) && text[p..p + |s|] == s
  {
    var text, p := before + s + after, |before|;
    forall k | p <= k < p + |s| ensures IsDigit(text[k]) {
      assert text[k] == s[k - p];
    }
    assert before != "" ==> text[p - 1] == before[p - 1];
    assert after != "" ==> text[p + |s|] == after[0];
  }

  /** A detection of s where it stands between the two. */
  function At(
      before: string, s: string, entityType: string, confidence: real, ruleId: string): Detection
  {
    Detection(entityType, |before|, |before| + |s|, s, confidence, 1, "structural.dz", Some(ruleId))
  }

  lemma ReportedInContext(
      before: string, s: string, after: string, entityType: string, confidence: real, ruleId: string)
    requires s != "" && AllDigits(s) && DigitFree(before, after)
    ensures ReportsRun(before + s + after, |s|, entityType, confidence, ruleId,
      At(before, s, entityType, confidence, ruleId))
  {
    RunInContext(before, s, after);
  }

  /** A bank account becomes twenty digits with a valid key, which the RIB scanner reports wherever no digit touches
      them. */
  lemma BankAccountFound(h: Hashing, packs: map<string, Pack>, original: string, country: string, salt: string,
      before: string, after: string)
    requires h.Good() && DigitFree(before, after)
    ensures var s := SyntheticFor(h, packs, "bank_account", original, country, salt);
      && |s| == 20 && AllDigits(s) && RibKeyValid(s) && |before| in RibStarts(before + s + after)
      && ReportsRun(
           before + s + after, 20, "bank_account", 0.99, "dz.rib", At(before, s, "bank_account", 0.99, "dz.rib"))
  {
    var seed := Seed(salt, "bank_account", original, country);
    GeneratedRibIsFound(h, seed, before, after);
    ReportedInContext(before, RibFor(h, seed), after, "bank_account", 0.99, "dz.rib");
  }

  /** A card number becomes sixteen digits that pass the Luhn test and would not with any one digit changed. */
  lemma CardPasses(h: Hashing, packs: map<string, Pack>, original: string, country: string, salt: string)
    requires h.Good()
    ensures var s := SyntheticFor(h, packs, "card_number", original, country, salt);
      && |s| == 16 && AllDigits(s) && LuhnValid(s)
      && forall i, c :: 0 <= i < 16 && IsDigit(c) && c != s[i] ==> !LuhnValid(s[i := c])
  {
    GeneratedCardPasses(h, Seed(salt, "card_number", original, country));
  }

  /** A national id becomes what the NIN scanner reports wherever no digit touches it. */
  lemma NationalIdReported(h: Hashing, packs: map<string, Pack>, original: string, country: string, salt: string,
      before: string, after: string)
    requires h.Good() && DigitFree(before, after)
    ensures var s := SyntheticFor(h, packs, "national_id", original, country, salt);
      && |s| == 18
      && ReportsRun(before + s + after, 18, "national_id", 0.85, "dz.nin", At(before, s, "national_id", 0.85, "dz.nin"))
  {
    var s := SyntheticFor(h, packs, "national_id", original, country, salt);
    ReportedInContext(before, s, after, "national_id", 0.85, "dz.nin");
  }

  /** A tax id becomes what the NIF scanner reports wherever no digit touches it. */
  lemma TaxIdReported(h: Hashing, packs: map<string, Pack>, original: string, country: string, salt: string,
      before: string, after: string)
    requires h.Good() && DigitFree(before, after)
    ensures var s := SyntheticFor(h, packs, "tax_id", original, country, salt);
      && |s| == 15
      && ReportsRun(before + s + after, 15, "tax_id", 0.85, "dz.nif", At(before, s, "tax_id", 0.85, "dz.nif"))
  {
    var s := SyntheticFor(h, packs, "tax_id", original, country, salt);
    ReportedInContext(before, s, after, "tax_id", 0.85, "dz.nif");
  }

  /** What the three scanners report on a text in which the synthetics for a national id, a tax id and a bank account
      stand alone: each its own, and none another's. */
  method ScannersTellApart(h: Hashing, packs: map<string, Pack>, entityType: string, original: string, country: string,
      salt: string, before: string, after: string)
    returns (nins: seq<Detection>, nifs: seq<Detection>, ribs: seq<Detection>)
    requires h.Good() && DigitFree(before, after)
    requires entityType == "national_id" || entityType == "tax_id" || entityType == "bank_account"
    ensures var n := |SyntheticFor(h, packs, entityType, original, country, salt)|;
      var here := (d: Detection) => d.start == |before| && d.end == |before| + n;
      && ((exists d :: d in nins && here(d)) <==> entityType == "national_id")
      && ((exists d :: d in nifs && here(d)) <==> entityType == "tax_id")
      && ((exists d :: d in ribs && here(d)) <==> entityType == "bank_account")
  {
    var s := SyntheticFor(h, packs, entityType, original, country, salt);
    nins := DetectNin(before + s + after);
    nifs := DetectNif(before + s + after);
    ribs := DetectRib(before + s + after);
    if entityType == "national_id" {
      NationalIdReported(h, packs, original, country, salt, before, after);
      assert At(before, s, "national_id", 0.85, "dz.nin") in nins;
    } else if entityType == "tax_id" {
      TaxIdReported(h, packs, original, country, salt, before, after);
      assert At(before, s, "tax_id", 0.85, "dz.nif") in nifs;
    } else {
      BankAccountFound(h, packs, original, country, salt, before, after);
      assert At(before, s, "bank_account", 0.99, "dz.rib") in ribs;
    }
  }

  /** Dates and amounts come back as they are. */
  lemma KeptVerbatim(
      h: Hashing, packs: map<string, Pack>, entityType: string, original: string, country: string, salt: string)
    requires h.Good() && (entityType == "date" || entityType == "monetary")
    ensures SyntheticFor(h, packs, entityType, original, country, salt) == original
  {
  }

  /** Persons, organizations and locations get a value of their own pool: the registered one of the country, or
      Algeria's when none is registered. */
  lemma NamesFromPack(h: Hashing, packs: map<string, Pack>, original: string, country: string, salt: string)
    requires h.Good()
    ensures var pack := if country in packs then packs[country] else DZ_PACK;
      && (pack.persons != [] ==> SyntheticFor(h, packs, "person", original, country, salt) in pack.persons)
      && (pack.organizations != [] ==>
            SyntheticFor(h, packs, "organization", original, country, salt) in pack.organizations)
      && (pack.locations != [] ==> SyntheticFor(h, packs, "location", original, country, salt) in pack.locations)
  {
  }

  lemma LastByteDecides(b: Bytes)
    requires b != []
    ensures BigEndian(b) % 8 == b[|b| - 1] % 8
  {
    assert BigEndian(b) == 8 * (32 * BigEndian(b[..|b| - 1])) + b[|b| - 1];
  }

  /** From a pool of eight, such as the Algerian persons, the eighth byte of the hash of salt, type, original and
      country picks the name. */
  lemma EighthBytePicks(
      h: Hashing, packs: map<string, Pack>, entityType: string, original: string, country: string, salt: string)
    requires h.Good() && Pooled(entityType)
    requires |PoolOf(PackFor(packs, country), entityType)| == 8
    ensures var pool := PoolOf(PackFor(packs, country), entityType);
      var digest := h.sha256(h.encode(salt + "|" + entityType + "|" + original + "|" + country));
      SyntheticFor(h, packs, entityType, original, country, salt) == pool[digest[7] % 8]
  {
    var digest := h.sha256(h.encode(Seed(salt, entityType, original, country)));
    LastByteDecides(digest[..8]);
  }

  /** From an empty pool every name of a request gets the start of its salt. */
  lemma EmptyPoolCollides(
      h: Hashing, packs: map<string, Pack>, entityType: string, original: string, country: string, salt: string)
    requires h.Good() && Pooled(entityType) && PoolOf(PackFor(packs, country), entityType) == [] && |salt| >= 6
    ensures SyntheticFor(h, packs, entityType, original, country, salt) == "<" + salt[..6] + ">"
  {
    assert Slice(Seed(salt, entityType, original, country), 0, 6) == salt[..6];
  }

  /** The digits of a synthetic number are the last digits of the bytes of the hash of salt, type, original and
      country, one after another. */
  lemma DigitsFromDigest(
      h: Hashing, packs: map<string, Pack>, entityType: string, original: string, country: string, salt: string, i: nat)
    requires h.Good() && i < (if entityType == "tax_id" || entityType == "card_number" then 15 else 18)
    requires entityType in {"national_id", "tax_id", "bank_account", "card_number"}
    ensures var s := SyntheticFor(h, packs, entityType, original, country, salt);
      var digest := h.sha256(h.encode(salt + "|" + entityType + "|" + original + "|" + country));
      i < |s| && DigitValue(s[i]) == digest[i] % 10
  {
  }

  lemma {:induction false} SameTail(a: string, b: string, tail: string)
    ensures a + tail == b + tail <==> a == b
  {
    if a + tail == b + tail {
      assert |a| == |b|;
      assert a == (a + tail)[..|a|] && b == (b + tail)[..|b|];
    }
  }

  lemma {:induction false} SameHead(head: string, a: string, b: string)
    ensures head + a == head + b <==> a == b
  {
    if head + a == head + b {
      assert a == (head + a)[|head|..] && b == (head + b)[|head|..];
    }
  }

  /** Every part of the seed tells. Two requests have different seeds for the same entity, */
  lemma {:induction false} SaltTells(salt: string, other: string, t: string, o: string, c: string)
    ensures Seed(salt, t, o, c) == Seed(other, t, o, c) <==> salt == other
  {
    SeedParts("", salt, "|" + t + "|" + o + "|" + c, other);
    assert Seed(salt, t, o, c) == "" + salt + ("|" + t + "|" + o + "|" + c);
    assert Seed(other, t, o, c) == "" + other + ("|" + t + "|" + o + "|" + c);
  }

  /** and so have, within a request, two types, */
  lemma {:induction false} TypeTells(salt: string, t: string, other: string, o: string, c: string)
    ensures Seed(salt, t, o, c) == Seed(salt, other, o, c) <==> t == other
  {
    SeedParts(salt + "|", t, "|" + o + "|" + c, other);
    assert Seed(salt, t, o, c) == salt + "|" + t + ("|" + o + "|" + c);
    assert Seed(salt, other, o, c) == salt + "|" + other + ("|" + o + "|" + c);
  }

  /** two originals, */
  lemma {:induction false} OriginalTells(salt: string, t: string, o: string, other: string, c: string)
    ensures Seed(salt, t, o, c) == Seed(salt, t, other, c) <==> o == other
  {
    SeedParts(salt + "|" + t + "|", o, "|" + c, other);
    assert Seed(salt, t, o, c) == salt + "|" + t + "|" + o + ("|" + c);
    assert Seed(salt, t, other, c) == salt + "|" + t + "|" + other + ("|" + c);
  }

  /** and two countries. */
  lemma {:induction false} CountryTells(salt: string, t: string, o: string, c: string, other: string)
    ensures Seed(salt, t, o, c) == Seed(salt, t, o, other) <==> c == other
  {
    SameHead(salt + "|" + t + "|" + o + "|", c, other);
  }

  lemma {:induction false} SeedParts(head: string, a: string, tail: string, b: string)
    ensures head + a + tail == head + b + tail <==> a == b
  {
    SameTail(head + a, head + b, tail);
    SameHead(head, a, b);
  }

  predicate IsHex(c: char) { '0' <= c <= '9' || 'a' <= c <= 'f' }

  lemma {:induction false} HexDigestShape(b: Bytes)
    requires forall i :: 0 <= i < |b| ==> b[i] < 256
    ensures |HexDigest(b)| == 2 * |b| && forall i :: 0 <= i < |HexDigest(b)| ==> IsHex(HexDigest(b)[i])
  {
    if b == [] {
    } else {
      HexDigestShape(b[1..]);
    }
  }

  /** An e-mail address becomes one of example.com, a name of eight hexadecimal digits behind "user". */
  lemma EmailShape(h: Hashing, packs: map<string, Pack>, original: string, country: string, salt: string)
    requires h.Good()
    ensures var s := SyntheticFor(h, packs, "email", original, country, salt);
      && |s| == 24 && s[..4] == "user" && s[12..] == "@example.com"
      && forall i :: 4 <= i < 12 ==> IsHex(s[i])
  {
    HexDigestShape(h.sha256(h.encode(Seed(salt, "email", original, country))));
  }

  /** An Algerian telephone number becomes one of the mobile range, in pairs; any other one of the 555 exchange. */
  lemma PhoneShape(h: Hashing, packs: map<string, Pack>, original: string, country: string, salt: string)
    requires h.Good()
    ensures var s := SyntheticFor(h, packs, "phone", original, country, salt);
      if country == "DZ" then
        && |s| == 17 && s[..6] == "+213 5"
        && forall i :: 6 <= i < 17 ==> if i == 8 || i == 11 || i == 14 then s[i] == ' ' else IsDigit(s[i])
      else
        && |s| == 15 && s[..7] == "+1 555 "
        && forall i :: 7 <= i < 15 ==> if i == 10 then s[i] == ' ' else IsDigit(s[i])
  {
    var d := DigitString(h, Seed(salt, "phone", original, country), 9);
    if country == "DZ" {
      InPairs(d);
    } else {
      InTwo(d);
    }
  }

  lemma InPairs(d: string)
    requires |d| == 9 && AllDigits(d)
    ensures var s := "+213 5" + d[..2] + " " + d[2..4] + " " + d[4..6] + " " + d[6..8];
      && |s| == 17 && s[..6] == "+213 5"
      && forall i :: 6 <= i < 17 ==> if i == 8 || i == 11 || i == 14 then s[i] == ' ' else IsDigit(s[i])
  {
  }

  lemma InTwo(d: string)
    requires |d| == 9 && AllDigits(d)
    ensures var s := "+1 555 " + d[..3] + " " + d[3..7];
      && |s| == 15 && s[..7] == "+1 555 "
      && forall i :: 7 <= i < 15 ==> if i == 10 then s[i] == ' ' else IsDigit(s[i])
  {
  }
}
