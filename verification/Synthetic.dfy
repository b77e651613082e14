/** Synthetic values: digit strings that pass their own validators, pool picks, and where picks collide. */
module Synthetic {
  import opened Sequences
  import opened Text
  import opened CheckDigits
  import opened Scanners

  type Bytes = seq<nat>

  /** SHA-256 over bytes, and the encoding of a seed. */
  datatype Hashing = Hashing(sha256: Bytes -> Bytes, encode: string -> Bytes)
  {
    ghost predicate Good() {
      forall x :: |sha256(x)| == 32 && forall i :: 0 <= i < 32 ==> sha256(x)[i] < 256
    }
  }

  datatype Pack = Pack(persons: seq<string>, organizations: seq<string>, locations: seq<string>)

  const DZ_PACK := Pack(
    ["Karim Hadji", "Yacine Mansouri", "Amina Belkacem", "Sara Bouzid",
     "Walid Ouali", "Nadia Cherif", "Mehdi Lounis", "Lina Saadi"],
    ["Société Générale Algérie", "Naftal SPA", "Mobilis Telecom", "Sonelgaz", "Algérie Poste"],
    ["Alger", "Oran", "Constantine", "Annaba", "Tlemcen", "Sétif"])

  // ----- Digit strings -----

  /** Each byte's last decimal digit. */
  function LastDigits(digest: Bytes): (s: string)
    ensures |s| == |digest| && AllDigits(s)
  {
    seq(|digest|, i requires 0 <= i < |digest| => DigitChar(digest[i] % 10))
  }

  /** The digits of `digest`, of its hash, of that hash's hash and so on, until there are enough. */
  function DigitStream(h: Hashing, digest: Bytes, digits: string, length: nat): (s: string)
    requires h.Good() && AllDigits(digits)
    ensures |s| == length && AllDigits(s)
    decreases length - |digits|
  {
    if |digits| >= length then digits[..length]
    else
      var next := h.sha256(digest);
      DigitStream(h, next, digits + LastDigits(next), length)
  }

  function DigitString(h: Hashing, seed: string, length: nat): (s: string)
    requires h.Good()
    ensures |s| == length && AllDigits(s)
  {
    var digest := h.sha256(h.encode(seed));
    DigitStream(h, digest, LastDigits(digest), length)
  }

  method DigitStringFor(h: Hashing, seed: string, length: nat) returns (s: string)
    requires h.Good()
    ensures s == DigitString(h, seed, length)
  {
    var digest := h.sha256(h.encode(seed));
    var digits := LastDigits(digest);
    while |digits| < length
      invariant AllDigits(digits)
      invariant DigitStream(h, digest, digits, length) == DigitString(h, seed, length)
      decreases length - |digits|
    {
      digest := h.sha256(digest);
      digits := digits + LastDigits(digest);
    }
    s := digits[..length];
  }

  function RibFor(h: Hashing, seed: string): string
    requires h.Good()
  {
    var body := DigitString(h, seed, 18);
    body + TwoDigits(ExpectedKey(body))
  }

  function LuhnNumber(h: Hashing, seed: string): string
    requires h.Good()
  {
    var base := DigitString(h, seed, 15);
    base + [DigitChar(LuhnDigit(base))]
  }

  /** The running sum of the generator's loop after the i rightmost digits, the first of them doubled. */
  function LoopSum(base: string, i: nat): int
    requires i <= |base|
  {
    if i == 0 then 0
    else LoopSum(base, i - 1) + LuhnTerm(DigitValue(base[|base| - i]), (i - 1) % 2 == 0)
  }

  /** Summing from the right with every second term doubled is the Luhn sum. */
  lemma {:induction false} LoopSumIsLuhnSum(base: string, i: nat)
    requires i <= |base|
    ensures LoopSum(base, i) + LuhnSum(base[..|base| - i], i % 2 == 0) == LuhnSum(base, true)
  {
    if i == 0 {
      assert base[..|base|] == base;
    } else {
      LoopSumIsLuhnSum(base, i - 1);
      var longer := base[..|base| - (i - 1)];
      assert longer[..|longer| - 1] == base[..|base| - i] && longer[|longer| - 1] == base[|base| - i];
    }
  }

  method LuhnFor(h: Hashing, seed: string) returns (number: string)
    requires h.Good()
    ensures number == LuhnNumber(h, seed)
  {
    var base := DigitStringFor(h, seed, 15);
    var s := 0;
    for i := 0 to |base|
      invariant s == LoopSum(base, i)
    {
      var digit := DigitValue(base[|base| - 1 - i]);
      if i % 2 == 0 {
        var doubled := digit * 2;
        s := s + if doubled > 9 then doubled - 9 else doubled;
      } else {
        s := s + digit;
      }
    }
    LoopSumIsLuhnSum(base, |base|);
    var check := (10 - (s % 10)) % 10;
    number := base + [DigitChar(check)];
  }

  /** Every generated RIB is a 20-digit number that the validator accepts and the scanner finds in full,
      alone or in any text where no digit touches it. */
  lemma GeneratedRibIsFound(h: Hashing, seed: string, before: string, after: string)
    requires h.Good()
    requires before != "" ==> !IsDigit(before[|before| - 1])
    requires after != "" ==> !IsDigit(after[0])
    ensures var rib := RibFor(h, seed);
      && |rib| == 20 && AllDigits(rib) && RibKeyValid(rib)
      && |before| in RibStarts(before + rib + after)
  {
    var body := DigitString(h, seed, 18);
    OneKeyPerBody(body, TwoDigits(ExpectedKey(body)));
    RibFound(before, RibFor(h, seed), after);
  }

  /** Alone, a generated RIB is the only match. */
  lemma GeneratedRibIsOnlyMatch(h: Hashing, seed: string)
    requires h.Good()
    ensures RibStarts(RibFor(h, seed)) == [0]
  {
    var rib := RibFor(h, seed);
    var body := DigitString(h, seed, 18);
    OneKeyPerBody(body, TwoDigits(ExpectedKey(body)));
    assert MatchesAt(rib, 20, 0);
    assert MatchStarts(rib, 20, 0) == [0] + MatchStarts(rib, 20, 20);
    assert MatchStarts(rib, 20, 20) == [];
    assert rib[0..0 + 20] == rib;
    FilterAll(MatchStarts(rib, 20, 0), KeyValidAt(rib));
  }

  /** Every generated card number has 16 digits and passes the Luhn test, and changing any one digit makes it fail. */
  lemma GeneratedCardPasses(h: Hashing, seed: string)
    requires h.Good()
    ensures var number := LuhnNumber(h, seed);
      && |number| == 16 && LuhnValid(number)
      && forall i, c :: 0 <= i < 16 && IsDigit(c) && c != number[i] ==> !LuhnValid(number[i := c])
  {
    var base := DigitString(h, seed, 15);
    var number := LuhnNumber(h, seed);
    OneLuhnDigit(base, DigitChar(LuhnDigit(base)));
    forall i, c | 0 <= i < 16 && IsDigit(c) && c != number[i] ensures !LuhnValid(number[i := c]) {
      LuhnDetectsChange(number, i, c);
    }
  }

  // ----- synthetic_for -----

  /** `int.from_bytes(b, "big")`. */
  function BigEndian(b: Bytes): nat {
    if b == [] then 0 else 256 * BigEndian(b[..|b| - 1]) + b[|b| - 1]
  }

  function Pick(h: Hashing, seed: string, pool: seq<string>): string
    requires h.Good()
  {
    if pool == [] then "<" + Slice(seed, 0, 6) + ">"
    else pool[BigEndian(h.sha256(h.encode(seed))[..8]) % |pool|]
  }

  function HexChar(n: nat): char
    requires n < 16
  {
    "0123456789abcdef"[n]
  }

  function HexDigest(b: Bytes): string
    requires forall i :: 0 <= i < |b| ==> b[i] < 256
  {
    if b == [] then "" else [HexChar(b[0] / 16), HexChar(b[0] % 16)] + HexDigest(b[1..])
  }

  function PhoneFor(h: Hashing, seed: string, country: string): string
    requires h.Good()
  {
    var s := DigitString(h, seed, 9);
    if country == "DZ" then "+213 5" + s[..2] + " " + s[2..4] + " " + s[4..6] + " " + s[6..8]
    else "+1 555 " + s[..3] + " " + s[3..7]
  }

  function EmailFor(h: Hashing, seed: string): string
    requires h.Good()
  {
    "user" + Slice(HexDigest(h.sha256(h.encode(seed))), 0, 8) + "@example.com"
  }

  function Seed(salt: string, entityType: string, original: string, country: string): string {
    salt + "|" + entityType + "|" + original + "|" + country
  }

  function SyntheticFor(h: Hashing, packs: map<string, Pack>, entityType: string, original: string, country: string,
      salt: string): string
    requires h.Good()
  {
    var pack := PackFor(packs, country);
    var seed := Seed(salt, entityType, original, country);
    if entityType == "person" then Pick(h, seed, pack.persons)
    else if entityType == "organization" then Pick(h, seed, pack.organizations)
    else if entityType == "location" then Pick(h, seed, pack.locations)
    else if entityType == "phone" then PhoneFor(h, seed, country)
    else if entityType == "national_id" then DigitString(h, seed, 18)
    else if entityType == "tax_id" then DigitString(h, seed, 15)
    else if entityType == "bank_account" then RibFor(h, seed)
    else if entityType == "card_number" then LuhnNumber(h, seed)
    else if entityType == "email" then EmailFor(h, seed)
    else if entityType == "date" || entityType == "monetary" then original
    else "<" + Slice(entityType, 0, 6) + "-" + Slice(seed, 0, 6) + ">"
  }

  /** The token of a request's custom entities. */
  function CustomToken(salt: string): string {
    "<custom-" + Slice(salt, 0, 6) + ">"
  }

  /** All custom entities of a request get one token: the first six characters of the seed are salt. */
  lemma CustomAllCollide(h: Hashing, packs: map<string, Pack>, original: string, country: string, salt: string)
    requires h.Good() && |salt| >= 6
    ensures SyntheticFor(h, packs, "custom", original, country, salt) == CustomToken(salt)
  {
    assert Slice(Seed(salt, "custom", original, country), 0, 6) == salt[..6];
  }

  /** Among more values than there are places, two share one. */
  lemma {:induction false} Pigeonhole(places: seq<nat>, n: nat)
    requires |places| > n && forall i :: 0 <= i < |places| ==> places[i] < n
    ensures exists i, j :: 0 <= i < j < |places| && places[i] == places[j]
  {
    var used := set i | 0 <= i < |places| :: places[i];
    var all := Below(n);
    BelowCount(n);
    assert used <= all;
    Smaller(used, all);
    if forall i, j :: 0 <= i < j < |places| ==> places[i] != places[j] {
      DistinctCount(places);
    }
  }

  function Below(n: nat): set<nat> {
    if n == 0 then {} else Below(n - 1) + {n - 1}
  }

  lemma {:induction false} BelowCount(n: nat)
    ensures |Below(n)| == n && forall k: nat :: k in Below(n) <==> k < n
  {
    if n == 0 {
    } else {
      BelowCount(n - 1);
    }
  }

  lemma {:induction false} Smaller(a: set<nat>, b: set<nat>)
    requires a <= b
    ensures |a| <= |b|
  {
    if a == {} {
    } else {
      var x :| x in a;
      Smaller(a - {x}, b - {x});
    }
  }

  lemma {:induction false} DistinctCount(s: seq<nat>)
    requires forall i, j :: 0 <= i < j < |s| ==> s[i] != s[j]
    ensures |set i | 0 <= i < |s| :: s[i]| == |s|
  {
    if s == [] {
    } else {
      var n := |s| - 1;
      DistinctCount(s[..n]);
      assert (set i | 0 <= i < |s| :: s[i]) == (set i | 0 <= i < n :: s[..n][i]) + {s[n]};
    }
  }

  function PackFor(packs: map<string, Pack>, country: string): Pack {
    if country in packs then packs[country] else DZ_PACK
  }

  /** originals i and j get one synthetic. */
  ghost predicate Collide(h: Hashing, packs: map<string, Pack>, entityType: string, originals: seq<string>,
      country: string, salt: string, i: int, j: int)
    requires h.Good()
  {
    && 0 <= i < j < |originals|
    && SyntheticFor(h, packs, entityType, originals[i], country, salt)
      == SyntheticFor(h, packs, entityType, originals[j], country, salt)
  }

  /** The entity types whose synthetics are picked from a pool, and the pool. */
  predicate Pooled(entityType: string) {
    entityType == "person" || entityType == "organization" || entityType == "location"
  }

  function PoolOf(pack: Pack, entityType: string): seq<string> {
    if entityType == "person" then pack.persons
    else if entityType == "organization" then pack.organizations
    else pack.locations
  }

  /** With more names of one kind in a request than their pool holds, two of them get the same synthetic. */
  lemma PoolCollides(
      h: Hashing, packs: map<string, Pack>, entityType: string, originals: seq<string>, country: string, salt: string)
    requires h.Good() && Pooled(entityType)
    requires var pool := PoolOf(PackFor(packs, country), entityType); pool != [] && |originals| > |pool|
    ensures exists i, j :: Collide(h, packs, entityType, originals, country, salt, i, j)
  {
    var pool := PoolOf(PackFor(packs, country), entityType);
    var places := seq(|originals|, i requires 0 <= i < |originals| =>
      BigEndian(h.sha256(h.encode(Seed(salt, entityType, originals[i], country)))[..8]) % |pool|);
    Pigeonhole(places, |pool|);
    var i, j :| 0 <= i < j < |places| && places[i] == places[j];
    assert SyntheticFor(h, packs, entityType, originals[i], country, salt) == pool[places[i]];
    assert SyntheticFor(h, packs, entityType, originals[j], country, salt) == pool[places[j]];
    assert Collide(h, packs, entityType, originals, country, salt, i, j);
  }
}
