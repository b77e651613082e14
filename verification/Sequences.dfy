/** Facts about sequences shared by the other modules: Python's stable sort, and order-preserving filters. */
module Sequences {

  /** A total preorder, the way a Python sort key compares two elements (ties allowed). */
  ghost predicate TotalPreorder<T(!new)>(le: (T, T) -> bool) {
    && (forall a, b :: le(a, b) || le(b, a))
    && (forall a, b, c :: le(a, b) && le(b, c) ==> le(a, c))
  }

  ghost predicate Sorted<T>(s: seq<T>, le: (T, T) -> bool) {
    forall i, j :: 0 <= i < j < |s| ==> le(s[i], s[j])
  }

  function Insert<T>(x: T, s: seq<T>, le: (T, T) -> bool): seq<T> {
    if s == [] || le(x, s[0]) then [x] + s else [s[0]] + Insert(x, s[1..], le)
  }

  /** Python's `sorted`: ascending, and elements that tie keep their input order. */
  function StableSort<T>(s: seq<T>, le: (T, T) -> bool): seq<T> {
    if s == [] then [] else Insert(s[0], StableSort(s[1..], le), le)
  }

  lemma {:induction false} InsertPermutes<T>(x: T, s: seq<T>, le: (T, T) -> bool)
    ensures multiset(Insert(x, s, le)) == multiset{x} + multiset(s)
    ensures |Insert(x, s, le)| == |s| + 1
  {
    if s == [] || le(x, s[0]) {
    } else {
      InsertPermutes(x, s[1..], le);
      assert s == [s[0]] + s[1..];
    }
  }

  lemma {:induction false} SortPermutes<T>(s: seq<T>, le: (T, T) -> bool)
    ensures multiset(StableSort(s, le)) == multiset(s)
    ensures |StableSort(s, le)| == |s|
  {
    if s == [] {
    } else {
      SortPermutes(s[1..], le);
      InsertPermutes(s[0], StableSort(s[1..], le), le);
      assert s == [s[0]] + s[1..];
    }
  }

  /** Sorting neither adds nor drops elements. */
  lemma SortKeepsElements<T>(s: seq<T>, le: (T, T) -> bool)
    ensures forall x :: x in StableSort(s, le) <==> x in s
  {
    SortPermutes(s, le);
    forall x ensures x in StableSort(s, le) <==> x in s {
      assert x in StableSort(s, le) <==> x in multiset(StableSort(s, le));
    }
  }

  lemma {:induction false} InsertSorts<T(!new)>(x: T, s: seq<T>, le: (T, T) -> bool)
    requires TotalPreorder(le) && Sorted(s, le)
    ensures Sorted(Insert(x, s, le), le)
  {
    if s == [] || le(x, s[0]) {
    } else {
      InsertSorts(x, s[1..], le);
      InsertPermutes(x, s[1..], le);
      var t := Insert(x, s[1..], le);
      forall j | 0 <= j < |t| ensures le(s[0], t[j]) {
        assert t[j] in multiset(t);
        assert t[j] == x || t[j] in s[1..];
      }
    }
  }

  lemma {:induction false} SortSorts<T(!new)>(s: seq<T>, le: (T, T) -> bool)
    requires TotalPreorder(le)
    ensures Sorted(StableSort(s, le), le)
  {
    if s == [] {
    } else {
      SortSorts(s[1..], le);
      InsertSorts(s[0], StableSort(s[1..], le), le);
    }
  }

  /** A list already in order is left as it is, ties included. */
  lemma {:induction false} SortOfSorted<T>(s: seq<T>, le: (T, T) -> bool)
    requires Sorted(s, le)
    ensures StableSort(s, le) == s
  {
    if s == [] {
    } else {
      SortOfSorted(s[1..], le);
    }
  }

  /** The head of a stable sort is the first element of the list among the smallest ones. */
  lemma {:induction false} SortHead<T(!new)>(s: seq<T>, le: (T, T) -> bool) returns (at: nat)
    requires TotalPreorder(le) && s != []
    ensures StableSort(s, le) != [] && at < |s| && StableSort(s, le)[0] == s[at]
    ensures forall j :: 0 <= j < |s| ==> le(s[at], s[j])
    ensures forall j :: 0 <= j < at ==> !le(s[j], s[at])
  {
    var rest := StableSort(s[1..], le);
    SortPermutes(s[1..], le);
    if |s| == 1 || le(s[0], rest[0]) {
      at := 0;
      if |s| > 1 {
        var k := SortHead(s[1..], le);
        forall j | 0 <= j < |s| ensures le(s[0], s[j]) {
          if j > 0 { assert s[j] == s[1..][j - 1]; }
        }
      }
    } else {
      var k := SortHead(s[1..], le);
      at := k + 1;
      forall j | 0 <= j < |s| ensures le(s[at], s[j]) {
        if j > 0 { assert s[j] == s[1..][j - 1]; }
      }
      forall j | 0 <= j < at ensures !le(s[j], s[at]) {
        if j > 0 { assert s[j] == s[1..][j - 1]; }
      }
    }
  }

  lemma ConcatAssociative<T>(a: seq<T>, b: seq<T>, c: seq<T>)
    ensures a + (b + c) == (a + b) + c
  {
  }

  /** The elements satisfying p, in order: a Python list comprehension with a condition. */
  function Filter<T>(s: seq<T>, p: T -> bool): seq<T> {
    if s == [] then [] else (if p(s[0]) then [s[0]] else []) + Filter(s[1..], p)
  }

  lemma {:induction false} FilterAppend<T>(s: seq<T>, x: T, p: T -> bool)
    ensures Filter(s + [x], p) == Filter(s, p) + (if p(x) then [x] else [])
  {
    if s == [] {
    } else {
      FilterAppend(s[1..], x, p);
      assert (s + [x])[1..] == s[1..] + [x];
    }
  }

  lemma {:induction false} FilterConcat<T>(s: seq<T>, t: seq<T>, p: T -> bool)
    ensures Filter(s + t, p) == Filter(s, p) + Filter(t, p)
  {
    if s == [] {
      assert s + t == t;
    } else {
      FilterConcat(s[1..], t, p);
      assert (s + t)[1..] == s[1..] + t;
      ConcatAssociative(if p(s[0]) then [s[0]] else [], Filter(s[1..], p), Filter(t, p));
    }
  }

  /** An element that satisfies p comes next after those before it. */
  lemma {:induction false} FilterNext<T>(s: seq<T>, p: T -> bool, i: nat)
    requires i < |s| && p(s[i])
    ensures Filter(s[..i], p) + [s[i]] <= Filter(s, p)
  {
    var front := s[..i] + [s[i]];
    assert s == front + s[i + 1..];
    FilterConcat(front, s[i + 1..], p);
    FilterAppend(s[..i], s[i], p);
  }

  lemma {:induction false} FilterMember<T>(s: seq<T>, p: T -> bool, x: T)
    ensures x in Filter(s, p) <==> x in s && p(x)
  {
    if s == [] {
    } else {
      FilterMember(s[1..], p, x);
    }
  }

  lemma FilterMembers<T>(s: seq<T>, p: T -> bool)
    ensures forall x :: x in Filter(s, p) <==> x in s && p(x)
  {
    forall x ensures x in Filter(s, p) <==> x in s && p(x) {
      FilterMember(s, p, x);
    }
  }

  function Not<T>(p: T -> bool): T -> bool {
    x => !p(x)
  }

  /** A filter and its complement split the list. */
  lemma {:induction false} FilterSplits<T>(s: seq<T>, p: T -> bool)
    ensures multiset(Filter(s, p)) + multiset(Filter(s, Not(p))) == multiset(s)
  {
    if s == [] {
    } else {
      FilterSplits(s[1..], p);
      assert s == [s[0]] + s[1..];
    }
  }

  /** One pass that sends each element to the list it belongs to. */
  method Partition<T>(s: seq<T>, p: T -> bool) returns (yes: seq<T>, no: seq<T>)
    ensures yes == Filter(s, p) && no == Filter(s, Not(p))
  {
    yes, no := [], [];
    for i := 0 to |s|
      invariant yes == Filter(s[..i], p) && no == Filter(s[..i], Not(p))
    {
      assert s[..i + 1] == s[..i] + [s[i]];
      FilterAppend(s[..i], s[i], p);
      FilterAppend(s[..i], s[i], Not(p));
      if p(s[i]) {
        yes := yes + [s[i]];
      } else {
        no := no + [s[i]];
      }
    }
    assert s[..|s|] == s;
  }

  lemma {:induction false} FilterAll<T>(s: seq<T>, p: T -> bool)
    requires forall x :: x in s ==> p(x)
    ensures Filter(s, p) == s
  {
    if s == [] {
    } else {
      FilterAll(s[1..], p);
    }
  }

  lemma {:induction false} FilterNone<T>(s: seq<T>, p: T -> bool)
    requires forall x :: x in s ==> !p(x)
    ensures Filter(s, p) == []
  {
    if s == [] {
    } else {
      FilterNone(s[1..], p);
    }
  }

  lemma {:induction false} FilterFilter<T>(s: seq<T>, p: T -> bool, q: T -> bool)
    requires forall x :: q(x) ==> p(x)
    ensures Filter(Filter(s, p), q) == Filter(s, q)
  {
    if s == [] {
    } else {
      FilterFilter(s[1..], p, q);
      if p(s[0]) {
        assert ([s[0]] + Filter(s[1..], p))[1..] == Filter(s[1..], p);
      } else {
        assert [] + Filter(s[1..], p) == Filter(s[1..], p) && [] + Filter(s[1..], q) == Filter(s[1..], q);
      }
    }
  }

  /** If the first element that satisfies p satisfies the stricter q, it is also the first that does. */
  lemma FilterHead<T>(s: seq<T>, p: T -> bool, q: T -> bool)
    requires forall x :: q(x) ==> p(x)
    requires Filter(s, p) != [] && q(Filter(s, p)[0])
    ensures Filter(s, q) != [] && Filter(s, q)[0] == Filter(s, p)[0]
  {
    FilterFilter(s, p, q);
  }

  lemma FilterMiddle<T>(a: seq<T>, b: seq<T>, c: seq<T>, p: T -> bool)
    requires Filter(a, p) == [] && Filter(c, p) == []
    ensures Filter(a + b + c, p) == Filter(b, p)
  {
    FilterConcat(a + b, c, p);
    FilterConcat(a, b, p);
  }

  /** The equivalence class of `g` under a sort key. */
  predicate Ties<T>(le: (T, T) -> bool, g: T, x: T) {
    le(g, x) && le(x, g)
  }

  lemma {:induction false} InsertStable<T(!new)>(x: T, s: seq<T>, le: (T, T) -> bool, g: T)
    requires TotalPreorder(le)
    ensures Filter(Insert(x, s, le), y => Ties(le, g, y)) == Filter([x] + s, y => Ties(le, g, y))
  {
    var p := y => Ties(le, g, y);
    if s == [] || le(x, s[0]) {
    } else {
      InsertStable(x, s[1..], le, g);
      assert ([x] + s)[1..] == s;
      assert ([x] + s[1..])[1..] == s[1..];
      assert ([s[0]] + Insert(x, s[1..], le))[1..] == Insert(x, s[1..], le);
      assert !(p(x) && p(s[0]));
    }
  }

  /** Elements that tie keep their input order. */
  lemma {:induction false} SortStable<T(!new)>(s: seq<T>, le: (T, T) -> bool, g: T)
    requires TotalPreorder(le)
    ensures Filter(StableSort(s, le), y => Ties(le, g, y)) == Filter(s, y => Ties(le, g, y))
  {
    if s == [] {
    } else {
      SortStable(s[1..], le, g);
      InsertStable(s[0], StableSort(s[1..], le), le, g);
      assert ([s[0]] + StableSort(s[1..], le))[1..] == StableSort(s[1..], le);
    }
  }

  ghost predicate StrictlyIncreasing(s: seq<int>) {
    forall i, j :: 0 <= i < j < |s| ==> s[i] < s[j]
  }

  /** A strictly increasing list is determined by its set of elements. */
  lemma {:induction false} IncreasingUnique(s: seq<int>, t: seq<int>)
    requires StrictlyIncreasing(s) && StrictlyIncreasing(t)
    requires forall x :: x in s <==> x in t
    ensures s == t
  {
    assert forall i :: 0 <= i < |s| ==> s[i] in s;
    assert forall i :: 0 <= i < |t| ==> t[i] in t;
    if s == [] || t == [] {
    } else {
      assert s[0] in t && t[0] in s;
      assert s[0] == t[0];
      forall x ensures x in s[1..] <==> x in t[1..] {
        assert x in s[1..] <==> x in s && x != s[0];
        assert x in t[1..] <==> x in t && x != t[0];
      }
      IncreasingUnique(s[1..], t[1..]);
    }
  }

  function Max(a: int, b: int): int { if a < b then b else a }
}
