/** Check digits: the mod-97 key of an Algerian RIB and the Luhn digit of ISO/IEC 7812-1, Annex B. */
module CheckDigits {

  predicate IsDigit(c: char) { '0' <= c <= '9' }

  predicate AllDigits(s: string) {
    forall i :: 0 <= i < |s| ==> IsDigit(s[i])
  }

  function DigitValue(c: char): int { c as int - '0' as int }

  function DigitChar(d: nat): (c: char)
    requires d < 10
    ensures IsDigit(c) && DigitValue(c) == d
  {
    ('0' as int + d) as char
  }

  /** Python's `int(s)` for a digit string. */
  function Value(s: string): int {
    if s == "" then 0 else 10 * Value(s[..|s| - 1]) + DigitValue(s[|s| - 1])
  }

  /** Python's `f"{n:02d}"` below 100. */
  function TwoDigits(n: nat): (s: string)
    requires n < 100
    ensures |s| == 2 && AllDigits(s)
  {
    [DigitChar(n / 10), DigitChar(n % 10)]
  }

  function ExpectedKey(body: string): (k: int)
    ensures 1 <= k <= 97
  {
    97 - Value(body + "00") % 97
  }

  predicate RibKeyValid(rib: string) {
    if |rib| != 20 || !AllDigits(rib) then false
    else TwoDigits(ExpectedKey(rib[..18])) == rib[18..]
  }

  // ----- What a valid key means -----

  lemma ValueOfPair(s: string)
    requires |s| == 2
    ensures Value(s) == 10 * DigitValue(s[0]) + DigitValue(s[1])
  {
    assert s[..1][..0] == "" && s[..1][0] == s[0];
    assert Value(s[..1]) == DigitValue(s[0]);
  }

  lemma ValueAppendPair(a: string, b: string)
    requires |b| == 2
    ensures Value(a + b) == 100 * Value(a) + Value(b)
  {
    var s := a + b;
    assert s[..|s| - 1] == a + [b[0]] && (a + [b[0]])[..|a|] == a;
    ValueOfPair(b);
  }

  lemma TwoDigitsValue(n: nat)
    requires n < 100
    ensures Value(TwoDigits(n)) == n
  {
    ValueOfPair(TwoDigits(n));
  }

  lemma PairDetermined(s: string, n: nat)
    requires |s| == 2 && AllDigits(s) && n < 100
    ensures s == TwoDigits(n) <==> Value(s) == n
  {
    ValueOfPair(s);
    TwoDigitsValue(n);
    if Value(s) == n {
      assert DigitValue(s[0]) == n / 10 && DigitValue(s[1]) == n % 10;
    }
  }

  /** A 20-digit string is a valid RIB exactly when its value is 0 mod 97 and its key is 01 to 97. */
  lemma RibValidExactly(rib: string)
    requires |rib| == 20 && AllDigits(rib)
    ensures RibKeyValid(rib) <==> Value(rib) % 97 == 0 && 1 <= Value(rib[18..]) <= 97
  {
    var body, key := rib[..18], rib[18..];
    assert rib == body + key;
    ValueAppendPair(body, key);
    ValueAppendPair(body, "00");
    ValueOfPair("00");
    PairDetermined(key, ExpectedKey(body));
    KeyArithmetic(100 * Value(body), Value(key));
  }

  lemma KeyArithmetic(x: int, k: int)
    ensures k == 97 - x % 97 <==> (x + k) % 97 == 0 && 1 <= k <= 97
  {
    if 1 <= k <= 97 {
      var q, r := x / 97, x % 97;
      assert x + k == 97 * q + (r + k);
    }
  }

  /** Each 18-digit body has exactly one key. */
  lemma OneKeyPerBody(body: string, key: string)
    requires |body| == 18 && AllDigits(body)
    ensures RibKeyValid(body + key) <==> key == TwoDigits(ExpectedKey(body))
  {
    assert (body + key)[..18] == body && (body + key)[18..] == key;
    if key == TwoDigits(ExpectedKey(body)) {
      forall i | 0 <= i < 20 ensures IsDigit((body + key)[i]) {
        if i >= 18 { assert (body + key)[i] == key[i - 18]; }
      }
    }
  }

  // ----- Changing digits -----

  /** d times 10 to the k. */
  function Scale(d: int, k: nat): int {
    if k == 0 then d else 10 * Scale(d, k - 1)
  }

  /** Replacing the character at i moves the value by the difference of the digits at i's weight. */
  lemma {:induction false} ValueUpdate(s: string, i: nat, c: char)
    requires i < |s|
    ensures Value(s[i := c]) == Value(s) + Scale(DigitValue(c) - DigitValue(s[i]), |s| - 1 - i)
  {
    var n := |s| - 1;
    var t := s[i := c];
    if i == n {
      assert t[..n] == s[..n];
    } else {
      assert t[..n] == s[..n][i := c];
      ValueUpdate(s[..n], i, c);
    }
  }

  /** 68 is the inverse of 10 mod 97, so a factor 10 can be cancelled. */
  lemma CancelTen(x: int)
    requires (10 * x) % 97 == 0
    ensures x % 97 == 0
  {
    var m := (10 * x) / 97;
    assert x == 97 * (68 * m - 7 * x);
  }

  lemma {:induction false} CancelScale(x: int, k: nat)
    requires Scale(x, k) % 97 == 0
    ensures x % 97 == 0
  {
    if k == 0 {
    } else {
      CancelTen(Scale(x, k - 1));
      CancelScale(x, k - 1);
    }
  }

  /** A factor with an inverse mod 97 can be cancelled. */
  lemma CancelFactor(d: int, inverse: int, q: int, x: int)
    requires inverse * d == 97 * q + 1 && (d * x) % 97 == 0
    ensures x % 97 == 0
  {
    var m := (d * x) / 97;
    assert inverse * (97 * m) == (inverse * d) * x == (97 * q + 1) * x;
    assert x == 97 * (inverse * m - q * x);
  }

  lemma CancelDigit(d: int, x: int)
    requires 1 <= d <= 9 && (d * x) % 97 == 0
    ensures x % 97 == 0
  {
    var inverses := [(1, 0), (49, 1), (65, 2), (73, 3), (39, 2), (81, 5), (14, 1), (85, 7), (54, 5)];
    var (inverse, q) := inverses[d - 1];
    CancelFactor(d, inverse, q, x);
  }

  lemma DigitDifference(d: int, x: int)
    requires -9 <= d <= 9 && d != 0 && (d * x) % 97 == 0
    ensures x % 97 == 0
  {
    if d > 0 {
      CancelDigit(d, x);
    } else {
      assert d * x == -((-d) * x);
      CancelDigit(-d, x);
    }
  }

  /** Any change of a single digit turns a valid RIB into an invalid one. */
  lemma RibDetectsChange(rib: string, i: nat, c: char)
    requires RibKeyValid(rib) && i < 20 && IsDigit(c) && c != rib[i]
    ensures !RibKeyValid(rib[i := c])
  {
    var t := rib[i := c];
    RibValidExactly(rib);
    RibValidExactly(t);
    var d := DigitValue(c) - DigitValue(rib[i]);
    UpdateBy(rib, i, c, d, 19 - i);
    if Value(t) % 97 == 0 {
      MultiplesDiffer(Value(t), Value(rib));
      CancelScale(d, 19 - i);
    }
  }

  lemma MultiplesDiffer(a: int, b: int)
    requires a % 97 == 0 && b % 97 == 0
    ensures (a - b) % 97 == 0
  {
    assert a - b == 97 * (a / 97 - b / 97);
  }

  /** 10 has order 96 mod 97; that no power from 10 to 10^19 is 1 is all a RIB needs. */
  lemma PowersDiffer(m: nat)
    requires 1 <= m <= 19
    ensures (Scale(1, m) - 1) % 97 != 0
  {
    assert Scale(1, 4) == 10000;
    assert Scale(1, 8) == 100000000;
    assert Scale(1, 12) == 1000000000000;
    assert Scale(1, 16) == 10000000000000000;
    if m <= 4 {
      assert Scale(1, 1) == 10 && Scale(1, 2) == 100 && Scale(1, 3) == 1000;
    } else if m <= 8 {
      assert Scale(1, 5) == 100000 && Scale(1, 6) == 1000000 && Scale(1, 7) == 10000000;
    } else if m <= 12 {
      assert Scale(1, 9) == 1000000000 && Scale(1, 10) == 10000000000 && Scale(1, 11) == 100000000000;
    } else if m <= 16 {
      assert Scale(1, 13) == 10000000000000 && Scale(1, 14) == 100000000000000 && Scale(1, 15) == 1000000000000000;
    } else {
      assert Scale(1, 17) == 100000000000000000 && Scale(1, 18) == 1000000000000000000
        && Scale(1, 19) == 10000000000000000000;
    }
  }

  lemma {:induction false} ScaleSplit(d: int, m: nat, k: nat)
    ensures Scale(d, m + k) - Scale(d, k) == Scale(Scale(d, m) - d, k)
  {
    if k == 0 {
    } else {
      ScaleSplit(d, m, k - 1);
    }
  }

  lemma {:induction false} ScaleTimes(d: int, m: nat)
    ensures Scale(d, m) == d * Scale(1, m)
  {
    if m == 0 {
    } else {
      ScaleTimes(d, m - 1);
      TenTimes(d, Scale(1, m - 1));
    }
  }

  lemma TenTimes(d: int, p: int)
    ensures 10 * (d * p) == d * (10 * p)
  {
  }

  lemma {:induction false} ScaleNegative(d: int, k: nat)
    ensures Scale(-d, k) == -Scale(d, k)
  {
    if k == 0 {
    } else {
      ScaleNegative(d, k - 1);
    }
  }

  /** The value after swapping the digits at i and j: d is what j has more than i. */
  lemma ValueSwap(s: string, i: nat, j: nat, d: int, e: int, m: nat, k: nat)
    requires i < j < |s| && d == DigitValue(s[j]) - DigitValue(s[i]) && e == -d && m == j - i && k == |s| - 1 - j
    ensures Value(s[i := s[j]][j := s[i]]) - Value(s) == Scale(Scale(d, m) - d, k)
  {
    var t := s[i := s[j]];
    var n := m + k;
    UpdateBy(s, i, s[j], d, n);
    UpdateBy(t, j, s[i], e, k);
    SwapScales(Value(s), Value(t), Value(t[j := s[i]]), d, e, m, k, n);
  }

  lemma UpdateBy(s: string, i: nat, c: char, d: int, k: nat)
    requires i < |s| && d == DigitValue(c) - DigitValue(s[i]) && k == |s| - 1 - i
    ensures Value(s[i := c]) == Value(s) + Scale(d, k)
  {
    ValueUpdate(s, i, c);
  }

  lemma SwapScales(v0: int, v1: int, v2: int, d: int, e: int, m: nat, k: nat, n: nat)
    requires n == m + k && e == -d && v1 == v0 + Scale(d, n) && v2 == v1 + Scale(e, k)
    ensures v2 - v0 == Scale(Scale(d, m) - d, k)
  {
    ScaleNegative(d, k);
    ScaleSplit(d, m, k);
  }

  /** Swapping any two unequal digits turns a valid RIB into an invalid one. */
  lemma RibDetectsSwap(rib: string, i: nat, j: nat)
    requires RibKeyValid(rib) && i < j < 20 && rib[i] != rib[j]
    ensures !RibKeyValid(rib[i := rib[j]][j := rib[i]])
  {
    var t := rib[i := rib[j]][j := rib[i]];
    RibValidExactly(rib);
    RibValidExactly(t);
    var d := DigitValue(rib[j]) - DigitValue(rib[i]);
    ValueSwap(rib, i, j, d, -d, j - i, 19 - j);
    if Value(t) % 97 == 0 {
      MultiplesDiffer(Value(t), Value(rib));
      CancelScale(Scale(d, j - i) - d, 19 - j);
      SwapDifference(d, j - i);
    }
  }

  lemma SwapDifference(d: int, m: nat)
    requires -9 <= d <= 9 && d != 0 && 1 <= m <= 19
    ensures (Scale(d, m) - d) % 97 != 0
  {
    ScaleTimes(d, m);
    FactorOut(d, Scale(1, m));
    PowersDiffer(m);
    if (d * (Scale(1, m) - 1)) % 97 == 0 {
      DigitDifference(d, Scale(1, m) - 1);
    }
  }

  lemma FactorOut(d: int, p: int)
    ensures d * p - d == d * (p - 1)
  {
  }

  // ----- Luhn -----

  /** A digit's contribution: doubled, with the digits of a two-digit double added. */
  function LuhnTerm(d: int, doubled: bool): int {
    if doubled then if 2 * d > 9 then 2 * d - 9 else 2 * d else d
  }

  /** The weighted sum from the rightmost digit on; `doubled` says whether that one is doubled. */
  function LuhnSum(s: string, doubled: bool): int {
    if s == "" then 0
    else LuhnTerm(DigitValue(s[|s| - 1]), doubled) + LuhnSum(s[..|s| - 1], !doubled)
  }

  /** The Luhn test: the check digit itself is not doubled, the next one is, and so on. */
  predicate LuhnValid(s: string) {
    s != "" && AllDigits(s) && LuhnSum(s, false) % 10 == 0
  }

  function LuhnDigit(base: string): (d: int)
    ensures 0 <= d < 10
  {
    (10 - LuhnSum(base, true) % 10) % 10
  }

  /** Of the ten digits that can follow a base, exactly one passes the Luhn test. */
  lemma OneLuhnDigit(base: string, c: char)
    requires AllDigits(base) && IsDigit(c)
    ensures LuhnValid(base + [c]) <==> c == DigitChar(LuhnDigit(base))
  {
    assert (base + [c])[..|base|] == base;
  }

  /** Whether the digit at i is doubled. */
  predicate DoubledAt(s: string, i: nat, doubled: bool) {
    ((|s| - 1 - i) % 2 == 1) != doubled
  }

  lemma {:induction false} LuhnUpdate(s: string, i: nat, c: char, doubled: bool)
    requires i < |s|
    ensures LuhnSum(s[i := c], doubled) - LuhnSum(s, doubled)
         == LuhnTerm(DigitValue(c), DoubledAt(s, i, doubled)) - LuhnTerm(DigitValue(s[i]), DoubledAt(s, i, doubled))
  {
    var n := |s| - 1;
    if i == n {
      assert s[i := c][..n] == s[..n];
    } else {
      assert s[i := c][..n] == s[..n][i := c];
      LuhnUpdate(s[..n], i, c, !doubled);
    }
  }

  /** Any change of a single digit of a number that passes the Luhn test makes it fail. */
  lemma LuhnDetectsChange(s: string, i: nat, c: char)
    requires LuhnValid(s) && i < |s| && IsDigit(c) && c != s[i]
    ensures !LuhnValid(s[i := c])
  {
    var u := DoubledAt(s, i, false);
    LuhnUpdate(s, i, c, false);
    TermsDiffer(DigitValue(s[i]), DigitValue(c), u);
    ModShift(LuhnSum(s, false), LuhnTerm(DigitValue(c), u) - LuhnTerm(DigitValue(s[i]), u));
  }

  lemma TermsDiffer(a: int, b: int, u: bool)
    requires 0 <= a <= 9 && 0 <= b <= 9 && a != b
    ensures (LuhnTerm(b, u) - LuhnTerm(a, u)) % 10 != 0
  {
  }

  /** Swapping two neighbouring digits goes unnoticed exactly when they are equal or are 0 and 9. */
  lemma LuhnNeighbourSwap(s: string, i: nat)
    requires LuhnValid(s) && i + 1 < |s|
    ensures LuhnValid(s[i := s[i + 1]][i + 1 := s[i]])
       <==> s[i] == s[i + 1] || (s[i] == '0' && s[i + 1] == '9') || (s[i] == '9' && s[i + 1] == '0')
  {
    var t := s[i := s[i + 1]];
    LuhnUpdate(s, i, s[i + 1], false);
    LuhnUpdate(t, i + 1, s[i], false);
    var a, b := DigitValue(s[i]), DigitValue(s[i + 1]);
    var u := DoubledAt(s, i, false);
    assert DoubledAt(t, i + 1, false) == !u;
    SwapTerms(a, b, u);
    var t2 := t[i + 1 := s[i]];
    assert AllDigits(t2);
    ModShift(LuhnSum(s, false), LuhnSum(t2, false) - LuhnSum(s, false));
  }

  lemma ModShift(x: int, d: int)
    requires x % 10 == 0
    ensures (x + d) % 10 == 0 <==> d % 10 == 0
  {
  }

  lemma SwapTerms(a: int, b: int, u: bool)
    requires 0 <= a <= 9 && 0 <= b <= 9
    ensures (LuhnTerm(b, u) - LuhnTerm(a, u) + LuhnTerm(a, !u) - LuhnTerm(b, !u)) % 10 == 0
       <==> a == b || (a == 0 && b == 9) || (a == 9 && b == 0)
  {
  }
}
