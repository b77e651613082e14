/** Strings: slices, occurrences, Python's `str.replace`, and texts assembled from parts. */
module Text {

  /** Python's `t[lo:hi]` for non-negative bounds; a bound past the end is cut to it. */
  function Slice(t: string, lo: int, hi: int): string {
    var bottom := if lo < 0 then 0 else lo;
    var top := if hi < |t| then hi else |t|;
    if bottom < top then t[bottom..top] else ""
  }

  predicate OccursAt(t: string, s: string, p: int) {
    0 <= p && p + |s| <= |t| && t[p..p + |s|] == s
  }

  /** Python's `s in t`. */
  predicate Contains(t: string, s: string) {
    exists p | 0 <= p <= |t| :: OccursAt(t, s, p)
  }

  /** Python's `t.replace(s, o)`: leftmost occurrences first, never overlapping. */
  function Replace(t: string, s: string, o: string): string
    requires s != ""
  {
    if |t| < |s| then t
    else if t[..|s|] == s then o + Replace(t[|s|..], s, o)
    else [t[0]] + Replace(t[1..], s, o)
  }

  lemma OccursLater(x: string, t: string, s: string, p: int)
    requires OccursAt(t, s, p)
    ensures OccursAt(x + t, s, |x| + p)
  {
    assert (x + t)[|x| + p..|x| + p + |s|] == t[p..p + |s|];
  }

  lemma OccursBehind(x: string, t: string, s: string, p: int)
    requires OccursAt(x + t, s, p) && p >= |x|
    ensures OccursAt(t, s, p - |x|)
  {
    assert (x + t)[p..p + |s|] == t[p - |x|..p - |x| + |s|];
  }

  lemma OccursInTail(t: string, s: string, p: int)
    requires t != "" && OccursAt(t[1..], s, p)
    ensures OccursAt(t, s, p + 1)
  {
    OccursLater(t[..1], t[1..], s, p);
    assert t[..1] + t[1..] == t;
  }

  lemma {:induction false} ReplaceAbsent(t: string, s: string, o: string)
    requires s != "" && !Contains(t, s)
    ensures Replace(t, s, o) == t
  {
    if |t| < |s| {
    } else {
      assert !OccursAt(t, s, 0);
      forall p | 0 <= p <= |t[1..]| ensures !OccursAt(t[1..], s, p) {
        if OccursAt(t[1..], s, p) { OccursInTail(t, s, p); }
      }
      ReplaceAbsent(t[1..], s, o);
    }
  }

  /** Joining a and b with a separator absent from the first part loses nothing. */
  lemma {:induction false} JoinInjective(sep: char, a: string, b: string, c: string, d: string)
    requires sep !in a && sep !in c
    requires a + [sep] + b == c + [sep] + d
    ensures a == c && b == d
  {
    var x := a + [sep] + b;
    assert x[|a|] == sep && x[|c|] == sep;
    if |a| == |c| {
      assert a == x[..|a|] && c == x[..|c|];
      assert b == x[|a| + 1..] && d == x[|c| + 1..];
    }
  }

  // ----- Texts made of parts -----

  /** A stretch of text; `marked` ones are the places a replacement is meant for. */
  datatype Part = Part(text: string, marked: bool)

  function Join(parts: seq<Part>): string {
    if parts == [] then "" else parts[0].text + Join(parts[1..])
  }

  /** Where part i starts in the joined text. */
  function Offset(parts: seq<Part>, i: nat): nat
    requires i <= |parts|
  {
    if i == 0 then 0 else |parts[0].text| + Offset(parts[1..], i - 1)
  }

  function Fill(parts: seq<Part>, o: string): seq<Part> {
    seq(|parts|, i requires 0 <= i < |parts| => if parts[i].marked then parts[i].(text := o) else parts[i])
  }

  /** p is where a marked part starts. */
  ghost predicate MarkedAt(parts: seq<Part>, p: int) {
    exists i :: 0 <= i < |parts| && parts[i].marked && Offset(parts, i) == p
  }

  /** The joined text has s at the marked parts and nowhere else, overlapping positions included. */
  ghost predicate OnlyAtMarks(parts: seq<Part>, s: string) {
    && (forall i :: 0 <= i < |parts| && parts[i].marked ==> parts[i].text == s)
    && (forall p :: OccursAt(Join(parts), s, p) ==> MarkedAt(parts, p))
  }

  /** Dropping the first part keeps the occurrences where they belong. */
  lemma OnlyAtMarksTail(parts: seq<Part>, s: string)
    requires parts != [] && OnlyAtMarks(parts, s) && s != ""
    requires parts[0].marked || parts[0].text == ""
    ensures OnlyAtMarks(parts[1..], s)
  {
    var x := parts[0].text;
    forall p | OccursAt(Join(parts[1..]), s, p) ensures MarkedAt(parts[1..], p) {
      OccursLater(x, Join(parts[1..]), s, p);
      assert MarkedAt(parts, |x| + p);
      var i :| 0 <= i < |parts| && parts[i].marked && Offset(parts, i) == |x| + p;
      assert i > 0;
      assert parts[1..][i - 1] == parts[i] && Offset(parts[1..], i - 1) == p;
    }
  }

  /** `rest` is `parts` without the first character of its first part, which is unmarked. */
  ghost predicate DropsChar(parts: seq<Part>, rest: seq<Part>) {
    && parts != [] && !parts[0].marked && parts[0].text != ""
    && rest == [Part(parts[0].text[1..], false)] + parts[1..]
  }

  lemma DroppedChar(parts: seq<Part>, rest: seq<Part>)
    requires DropsChar(parts, rest)
    ensures Join(parts) == [parts[0].text[0]] + Join(rest) && Join(parts)[1..] == Join(rest)
    ensures forall p :: MarkedAt(rest, p) <==> MarkedAt(parts, 1 + p)
  {
    assert rest[1..] == parts[1..];
    forall p ensures MarkedAt(rest, p) <==> MarkedAt(parts, 1 + p) {
      DroppedMark(parts, rest, p);
    }
  }

  lemma OffsetAfter(parts: seq<Part>, rest: seq<Part>, i: nat)
    requires DropsChar(parts, rest) && 0 < i < |parts|
    ensures rest[i] == parts[i] && Offset(parts, i) == 1 + Offset(rest, i)
  {
    assert rest[1..] == parts[1..];
  }

  lemma DroppedMark(parts: seq<Part>, rest: seq<Part>, p: int)
    requires DropsChar(parts, rest)
    ensures MarkedAt(rest, p) <==> MarkedAt(parts, 1 + p)
  {
    if i :| 0 <= i < |rest| && rest[i].marked && Offset(rest, i) == p {
      OffsetAfter(parts, rest, i);
    }
    if i :| 0 <= i < |parts| && parts[i].marked && Offset(parts, i) == 1 + p {
      OffsetAfter(parts, rest, i);
    }
  }

  /** Dropping one character of an unmarked first part keeps the occurrences where they belong. */
  lemma OnlyAtMarksChar(parts: seq<Part>, s: string, rest: seq<Part>)
    requires DropsChar(parts, rest) && OnlyAtMarks(parts, s) && s != ""
    ensures OnlyAtMarks(rest, s) && !OccursAt(Join(parts), s, 0)
  {
    DroppedChar(parts, rest);
    forall p | OccursAt(Join(rest), s, p) ensures MarkedAt(rest, p) {
      OccursLater([parts[0].text[0]], Join(rest), s, p);
    }
    NotAtZero(parts);
  }

  lemma NotAtZero(parts: seq<Part>)
    requires parts != [] && !parts[0].marked && parts[0].text != ""
    ensures !MarkedAt(parts, 0)
  {
  }

  /** When s stands exactly at the marked parts, replacing it fills exactly those parts. */
  lemma {:induction false} ReplaceFillsMarks(parts: seq<Part>, s: string, o: string)
    requires s != "" && OnlyAtMarks(parts, s)
    ensures Replace(Join(parts), s, o) == Join(Fill(parts, o))
    decreases |Join(parts)| + |parts|
  {
    if parts == [] {
    } else {
      var x, t := parts[0].text, Join(parts);
      assert Fill(parts, o)[1..] == Fill(parts[1..], o);
      if parts[0].marked {
        OnlyAtMarksTail(parts, s);
        ReplaceFillsMarks(parts[1..], s, o);
        assert t[..|s|] == s && t[|s|..] == Join(parts[1..]);
      } else if x == "" {
        OnlyAtMarksTail(parts, s);
        ReplaceFillsMarks(parts[1..], s, o);
        assert t == Join(parts[1..]);
      } else {
        var rest := [Part(x[1..], false)] + parts[1..];
        OnlyAtMarksChar(parts, s, rest);
        DroppedChar(parts, rest);
        ReplaceFillsMarks(rest, s, o);
        assert rest[1..] == parts[1..];
        assert Fill(rest, o)[1..] == Fill(parts[1..], o);
        if |t| >= |s| { assert t[0..0 + |s|] == t[..|s|]; }
        FilledHead(parts, rest, o);
      }
    }
  }

  lemma FilledHead(parts: seq<Part>, rest: seq<Part>, o: string)
    requires parts != [] && !parts[0].marked && parts[0].text != ""
    requires rest == [Part(parts[0].text[1..], false)] + parts[1..]
    ensures Join(Fill(parts, o)) == [parts[0].text[0]] + Join(Fill(rest, o))
  {
    assert Fill(parts, o)[1..] == Fill(parts[1..], o);
    assert Fill(rest, o)[1..] == Fill(parts[1..], o);
  }

  // ----- When a replacement fills exactly the marked parts -----

  /** No two occurrences of s in t overlap. */
  ghost predicate Apart(t: string, s: string) {
    forall p, q :: OccursAt(t, s, p) && OccursAt(t, s, q) && p < q ==> p + |s| <= q
  }

  lemma ApartTail(t: string, s: string, n: nat)
    requires Apart(t, s) && n <= |t|
    ensures Apart(t[n..], s)
  {
    forall p, q | OccursAt(t[n..], s, p) && OccursAt(t[n..], s, q) && p < q ensures p + |s| <= q {
      assert t == t[..n] + t[n..];
      OccursLater(t[..n], t[n..], s, p);
      OccursLater(t[..n], t[n..], s, q);
    }
  }

  /** No proper prefix of s is also a suffix of s. */
  ghost predicate Unbordered(s: string) {
    forall k :: 0 < k < |s| ==> s[k..] != s[..|s| - k]
  }

  lemma OverlapIsBorder(t: string, s: string, p: int, q: int)
    requires OccursAt(t, s, p) && OccursAt(t, s, q) && p < q < p + |s|
    ensures s[q - p..] == s[..|s| - (q - p)]
  {
    assert s[q - p..] == t[q..p + |s|] == t[q..q + |s|][..|s| - (q - p)];
  }

  /** Occurrences of such a surface are apart in every text. */
  lemma UnborderedApart(t: string, s: string)
    requires Unbordered(s)
    ensures Apart(t, s)
  {
    forall p, q | OccursAt(t, s, p) && OccursAt(t, s, q) && p < q ensures p + |s| <= q {
      if q < p + |s| { OverlapIsBorder(t, s, p, q); }
    }
  }

  /** How many positions s occurs at. */
  function Count(t: string, s: string): nat {
    if |t| < |s| || t == "" then 0 else (if t[..|s|] == s then 1 else 0) + Count(t[1..], s)
  }

  function Marks(parts: seq<Part>): nat {
    if parts == [] then 0 else (if parts[0].marked then 1 else 0) + Marks(parts[1..])
  }

  /** Positions without an occurrence do not count. */
  lemma {:induction false} CountSkips(t: string, s: string, k: nat)
    requires s != "" && k <= |t| && forall j :: 0 <= j < k ==> !OccursAt(t, s, j)
    ensures Count(t, s) == Count(t[k..], s)
    decreases k
  {
    if k == 0 {
    } else {
      forall j | 0 <= j < k - 1 ensures !OccursAt(t[1..], s, j) {
        if OccursAt(t[1..], s, j) { OccursInTail(t, s, j); }
      }
      CountSkips(t[1..], s, k - 1);
      assert t[1..][k - 1..] == t[k..];
      assert !OccursAt(t, s, 0);
    }
  }

  /** After an occurrence at the front, the next one starts behind it. */
  lemma CountPast(t: string, s: string)
    requires Apart(t, s) && s != "" && OccursAt(t, s, 0)
    ensures Count(t, s) == 1 + Count(t[|s|..], s)
  {
    forall j | 0 <= j < |s| - 1 ensures !OccursAt(t[1..], s, j) {
      if OccursAt(t[1..], s, j) { OccursInTail(t, s, j); }
    }
    CountSkips(t[1..], s, |s| - 1);
    assert t[1..][|s| - 1..] == t[|s|..];
  }

  /** n * d by repeated addition. */
  function Product(n: nat, d: int): int {
    if n == 0 then 0 else d + Product(n - 1, d)
  }

  lemma {:induction false} ProductInjective(m: nat, n: nat, d: int)
    requires d != 0 && m < n
    ensures if d > 0 then Product(m, d) < Product(n, d) else Product(m, d) > Product(n, d)
  {
    if m == n - 1 {
    } else {
      ProductInjective(m, n - 1, d);
    }
  }

  lemma {:induction false} ReplaceLength(t: string, s: string, o: string)
    requires Apart(t, s) && s != ""
    ensures |Replace(t, s, o)| == |t| + Product(Count(t, s), |o| - |s|)
  {
    if |t| < |s| {
    } else if t[..|s|] == s {
      var tail := t[|s|..];
      CountPast(t, s);
      ApartTail(t, s, |s|);
      ReplaceLength(tail, s, o);
      assert |Replace(t, s, o)| == |o| + |Replace(tail, s, o)|;
    } else {
      var tail := t[1..];
      ApartTail(t, s, 1);
      ReplaceLength(tail, s, o);
      assert Count(t, s) == Count(tail, s);
    }
  }

  lemma {:induction false} FillLength(parts: seq<Part>, s: string, o: string)
    requires forall i :: 0 <= i < |parts| && parts[i].marked ==> parts[i].text == s
    ensures |Join(Fill(parts, o))| == |Join(parts)| + Product(Marks(parts), |o| - |s|)
  {
    if parts == [] {
    } else {
      assert Fill(parts, o)[1..] == Fill(parts[1..], o);
      FillLength(parts[1..], s, o);
    }
  }

  lemma {:induction false} MarkedOccurs(parts: seq<Part>, i: nat)
    requires i < |parts|
    ensures OccursAt(Join(parts), parts[i].text, Offset(parts, i))
  {
    if i == 0 {
      assert Join(parts)[0..0 + |parts[0].text|] == parts[0].text;
    } else {
      MarkedOccurs(parts[1..], i - 1);
      OccursLater(parts[0].text, Join(parts[1..]), parts[i].text, Offset(parts[1..], i - 1));
    }
  }

  /** Each marked part accounts for one occurrence; when nothing else does, s stands only at the marks. */
  lemma {:induction false} CountAtLeastMarks(parts: seq<Part>, s: string)
    requires s != "" && Apart(Join(parts), s)
    requires forall i :: 0 <= i < |parts| && parts[i].marked ==> parts[i].text == s
    ensures Count(Join(parts), s) >= Marks(parts)
    ensures Count(Join(parts), s) == Marks(parts) ==> OnlyAtMarks(parts, s)
    decreases |Join(parts)| + |parts|
  {
    if parts == [] {
    } else {
      var x, t := parts[0].text, Join(parts);
      if parts[0].marked || x == "" {
        assert t[|x|..] == Join(parts[1..]);
        ApartTail(t, s, |x|);
        CountAtLeastMarks(parts[1..], s);
        if parts[0].marked {
          assert t[..|s|] == s && t[|s|..] == Join(parts[1..]);
          CountPast(t, s);
        } else {
          assert t == Join(parts[1..]);
        }
        if Count(t, s) == Marks(parts) { AddFront(parts, s); }
      } else {
        var rest := [Part(x[1..], false)] + parts[1..];
        assert rest[1..] == parts[1..];
        assert t[1..] == Join(rest);
        ApartTail(t, s, 1);
        CountAtLeastMarks(rest, s);
        if Count(t, s) == Marks(parts) { AddChar(parts, s, rest); }
      }
    }
  }

  lemma AddFront(parts: seq<Part>, s: string)
    requires parts != [] && s != "" && Apart(Join(parts), s) && OnlyAtMarks(parts[1..], s)
    requires if parts[0].marked then parts[0].text == s else parts[0].text == ""
    ensures OnlyAtMarks(parts, s)
  {
    var t, x := Join(parts), parts[0].text;
    forall i | 0 <= i < |parts| && parts[i].marked ensures parts[i].text == s {
      if i > 0 { assert parts[i] == parts[1..][i - 1]; }
    }
    forall p | OccursAt(t, s, p) ensures MarkedAt(parts, p) {
      if p < |x| {
        assert t[..|s|] == s && OccursAt(t, s, 0);
        assert Offset(parts, 0) == 0;
      } else {
        MarkBehind(parts, s, p);
      }
    }
  }

  /** An occurrence behind the first part is at one of the other parts' marks. */
  lemma MarkBehind(parts: seq<Part>, s: string, p: int)
    requires parts != [] && OnlyAtMarks(parts[1..], s)
    requires OccursAt(Join(parts), s, p) && p >= |parts[0].text|
    ensures MarkedAt(parts, p)
  {
    var n := |parts[0].text|;
    OccursBehind(parts[0].text, Join(parts[1..]), s, p);
    assert MarkedAt(parts[1..], p - n);
    var i :| 0 <= i < |parts[1..]| && parts[1..][i].marked && Offset(parts[1..], i) == p - n;
    assert parts[i + 1].marked && Offset(parts, i + 1) == p;
  }

  lemma AddChar(parts: seq<Part>, s: string, rest: seq<Part>)
    requires DropsChar(parts, rest) && OnlyAtMarks(rest, s) && s != "" && !OccursAt(Join(parts), s, 0)
    ensures OnlyAtMarks(parts, s)
  {
    DroppedChar(parts, rest);
    forall i | 0 <= i < |parts| && parts[i].marked ensures parts[i].text == s {
      assert parts[i] == rest[i];
    }
    forall p | OccursAt(Join(parts), s, p) ensures MarkedAt(parts, p) {
      OccursBehind([parts[0].text[0]], Join(rest), s, p);
      assert MarkedAt(rest, p - 1);
    }
  }

  lemma {:induction false} FillKeepsFront(parts: seq<Part>, n: nat, o: string)
    requires n <= |Join(parts)|
    requires forall i :: 0 <= i < |parts| && parts[i].marked ==> Offset(parts, i) >= n
    ensures |Join(Fill(parts, o))| >= n && Join(Fill(parts, o))[..n] == Join(parts)[..n]
  {
    if parts == [] || n == 0 {
    } else {
      var x := parts[0].text;
      assert !parts[0].marked by { assert Offset(parts, 0) == 0; }
      assert Fill(parts, o)[1..] == Fill(parts[1..], o);
      if n > |x| {
        forall i | 0 <= i < |parts[1..]| && parts[1..][i].marked ensures Offset(parts[1..], i) >= n - |x| {
          assert parts[i + 1].marked && Offset(parts, i + 1) == |x| + Offset(parts[1..], i);
        }
        FillKeepsFront(parts[1..], n - |x|, o);
      }
    }
  }

  /** With a stray occurrence at the front, filling keeps it while replacing removes it. */
  lemma StrayFront(parts: seq<Part>, s: string, o: string)
    requires s != "" && Apart(Join(parts), s) && |o| == |s| && o != s
    requires forall i :: 0 <= i < |parts| && parts[i].marked ==> parts[i].text == s
    requires parts != [] && !parts[0].marked && parts[0].text != "" && OccursAt(Join(parts), s, 0)
    ensures Replace(Join(parts), s, o) != Join(Fill(parts, o))
  {
    var t := Join(parts);
    forall i | 0 <= i < |parts| && parts[i].marked ensures Offset(parts, i) >= |s| {
      MarkedOccurs(parts, i);
      assert Offset(parts, i) > 0;
    }
    FillKeepsFront(parts, |s|, o);
    assert t[0..0 + |s|] == t[..|s|];
    assert Replace(t, s, o)[..|s|] == o;
  }

  lemma ReplaceSkips(t: string, s: string, o: string)
    requires s != "" && t != "" && !OccursAt(t, s, 0)
    ensures Replace(t, s, o) == [t[0]] + Replace(t[1..], s, o) && Replace(t, s, o)[1..] == Replace(t[1..], s, o)
  {
    assert |t| >= |s| ==> t[0..0 + |s|] == t[..|s|];
  }

  lemma {:induction false} EqualLengthOnlyIf(parts: seq<Part>, s: string, o: string)
    requires s != "" && Apart(Join(parts), s) && |o| == |s| && o != s
    requires forall i :: 0 <= i < |parts| && parts[i].marked ==> parts[i].text == s
    requires Replace(Join(parts), s, o) == Join(Fill(parts, o))
    ensures OnlyAtMarks(parts, s)
    decreases |Join(parts)| + |parts|
  {
    if parts == [] {
    } else {
      var x, t := parts[0].text, Join(parts);
      assert Fill(parts, o)[1..] == Fill(parts[1..], o);
      if parts[0].marked {
        assert t[..|s|] == s && t[|s|..] == Join(parts[1..]);
        assert Join(Fill(parts, o))[|o|..] == Join(Fill(parts[1..], o));
        assert Replace(t, s, o)[|o|..] == Replace(t[|s|..], s, o);
        ApartTail(t, s, |s|);
        EqualLengthOnlyIf(parts[1..], s, o);
        AddFront(parts, s);
      } else if x == "" {
        assert t == Join(parts[1..]);
        assert Join(Fill(parts, o)) == Join(Fill(parts[1..], o));
        EqualLengthOnlyIf(parts[1..], s, o);
        AddFront(parts, s);
      } else {
        var rest := [Part(x[1..], false)] + parts[1..];
        DroppedChar(parts, rest);
        FilledHead(parts, rest, o);
        if OccursAt(t, s, 0) { StrayFront(parts, s, o); }
        ReplaceSkips(t, s, o);
        ApartTail(t, s, 1);
        EqualLengthOnlyIf(rest, s, o);
        AddChar(parts, s, rest);
      }
    }
  }

  /** Where occurrences of the surface do not overlap, `replace` fills exactly the marked parts if and only if
      the surface stands at the marked parts and nowhere else. */
  lemma ReplaceFillsExactly(parts: seq<Part>, s: string, o: string)
    requires s != "" && Apart(Join(parts), s) && o != s
    requires forall i :: 0 <= i < |parts| && parts[i].marked ==> parts[i].text == s
    ensures Replace(Join(parts), s, o) == Join(Fill(parts, o)) <==> OnlyAtMarks(parts, s)
  {
    if OnlyAtMarks(parts, s) {
      ReplaceFillsMarks(parts, s, o);
    }
    if Replace(Join(parts), s, o) == Join(Fill(parts, o)) {
      if |o| == |s| {
        EqualLengthOnlyIf(parts, s, o);
      } else {
        ReplaceLength(Join(parts), s, o);
        FillLength(parts, s, o);
        CountAtLeastMarks(parts, s);
        if Count(Join(parts), s) > Marks(parts) {
          ProductInjective(Marks(parts), Count(Join(parts), s), |o| - |s|);
        }
      }
    }
  }
}
