/** List comprehensions with a condition. */
module Lists {
  import opened Sorting

  /** `[x for x in xs if p(x)]` */
  function Filter<T>(xs: seq<T>, p: T -> bool): (r: seq<T>) {
    if xs == [] then []
    else Filter(xs[..|xs| - 1], p) + if p(xs[|xs| - 1]) then [xs[|xs| - 1]] else []
  }

  function Not<T>(p: T -> bool): T -> bool {
    (x: T) => !p(x)
  }

  function And<T>(p: T -> bool, q: T -> bool): T -> bool {
    (x: T) => p(x) && q(x)
  }

  ghost function Where<T>(xs: seq<T>, p: T -> bool): set<T> {
    set x | x in xs && p(x)
  }

  lemma {:induction false} FilterMembers<T>(xs: seq<T>, p: T -> bool)
    ensures forall x :: x in Filter(xs, p) <==> x in xs && p(x)
  {
    if xs == [] {
    } else {
      FilterMembers(xs[..|xs| - 1], p);
      assert xs == xs[..|xs| - 1] + [xs[|xs| - 1]];
    }
  }

  /** A condition splits a list in two. */
  lemma {:induction false} FilterSplit<T>(xs: seq<T>, p: T -> bool)
    ensures |Filter(xs, p)| + |Filter(xs, Not(p))| == |xs|
  {
    if xs == [] {
    } else {
      FilterSplit(xs[..|xs| - 1], p);
    }
  }

  /** On a list without repetition, a filter is as long as the set it selects. */
  lemma {:induction false} FilterCounts<T>(xs: seq<T>, p: T -> bool)
    requires Unique(xs)
    ensures |Filter(xs, p)| == |Where(xs, p)|
  {
    if xs == [] {
      assert Where(xs, p) == {};
    } else {
      var init, last := xs[..|xs| - 1], xs[|xs| - 1];
      FilterCounts(init, p);
      assert xs == init + [last];
      assert last !in Where(init, p);
      assert Where(xs, p) == Where(init, p) + if p(last) then {last} else {};
    }
  }

  lemma {:induction false} FilterUnique<T>(xs: seq<T>, p: T -> bool)
    requires Unique(xs)
    ensures Unique(Filter(xs, p))
  {
    if xs == [] {
    } else {
      FilterUnique(xs[..|xs| - 1], p);
      FilterMembers(xs[..|xs| - 1], p);
    }
  }

  lemma {:induction false} FilterAll<T>(xs: seq<T>, p: T -> bool)
    requires forall x | x in xs :: p(x)
    ensures Filter(xs, p) == xs
  {
    if xs == [] {
    } else {
      var init, last := xs[..|xs| - 1], xs[|xs| - 1];
      FilterAll(init, p);
      assert last in xs && xs == init + [last];
    }
  }

  lemma {:induction false} FilterSame<T>(xs: seq<T>, p: T -> bool, q: T -> bool)
    requires forall x | x in xs :: p(x) <==> q(x)
    ensures Filter(xs, p) == Filter(xs, q)
  {
    if xs == [] {
    } else {
      FilterSame(xs[..|xs| - 1], p, q);
    }
  }

  lemma {:induction false} FilterFirst<T>(x: T, xs: seq<T>, p: T -> bool)
    ensures Filter([x] + xs, p) == (if p(x) then [x] else []) + Filter(xs, p)
  {
    if xs == [] {
      assert ([x] + xs)[..0] == [];
    } else {
      var init, last := xs[..|xs| - 1], xs[|xs| - 1];
      FilterFirst(x, init, p);
      assert ([x] + xs)[..|xs|] == [x] + init;
    }
  }

  lemma SwapUnlike<T>(x: T, y: T, ys: seq<T>, p: T -> bool)
    requires !(p(x) && p(y))
    ensures Filter([x] + ([y] + ys), p) == (if p(y) then [y] else []) + Filter([x] + ys, p)
  {
    FilterFirst(x, [y] + ys, p);
    FilterFirst(y, ys, p);
    FilterFirst(x, ys, p);
  }

  lemma {:induction false} InsertStable<T(!new)>(x: T, ys: seq<T>, leq: (T, T) -> bool, p: T -> bool)
    requires forall a, b | p(a) && p(b) :: leq(a, b)
    ensures Filter(Insert(x, ys, leq), p) == Filter([x] + ys, p)
  {
    if ys != [] && !leq(x, ys[0]) {
      InsertStable(x, ys[1..], leq, p);
      assert !(p(x) && p(ys[0]));
      FilterFirst(ys[0], Insert(x, ys[1..], leq), p);
      SwapUnlike(x, ys[0], ys[1..], p);
      assert ys == [ys[0]] + ys[1..];
    }
  }

  /** `sorted` is stable: elements that the order does not tell apart keep their order. */
  lemma {:induction false} SortStable<T(!new)>(xs: seq<T>, leq: (T, T) -> bool, p: T -> bool)
    requires forall a, b | p(a) && p(b) :: leq(a, b)
    ensures Filter(Sort(xs, leq), p) == Filter(xs, p)
  {
    if xs == [] {
    } else {
      SortStable(xs[1..], leq, p);
      InsertStable(xs[0], Sort(xs[1..], leq), leq, p);
      FilterFirst(xs[0], Sort(xs[1..], leq), p);
      FilterFirst(xs[0], xs[1..], p);
      assert xs == [xs[0]] + xs[1..];
    }
  }

  /** Filtering twice is filtering by both conditions. */
  lemma {:induction false} FilterTwice<T>(xs: seq<T>, p: T -> bool, q: T -> bool)
    ensures Filter(Filter(xs, p), q) == Filter(xs, And(p, q))
  {
    if xs == [] {
    } else {
      var init, last := xs[..|xs| - 1], xs[|xs| - 1];
      FilterTwice(init, p, q);
      if p(last) {
        var r := Filter(init, p) + [last];
        assert r[..|r| - 1] == Filter(init, p);
      } else {
        assert Filter(xs, p) == Filter(init, p);
      }
    }
  }
}

/** Python's order on strings: by the first code point that differs, a proper prefix first. */
module Lexicographic {
  import opened Text

  /** `a` and `b` agree on their first `k` characters, and the next one decides for `a`. */
  ghost predicate DecidedAt(a: string, b: string, k: nat) {
    k <= |a| && k < |b| && a[..k] == b[..k] && (k == |a| || a[k] < b[k])
  }

  predicate Less(a: string, b: string) {
    b != [] && (a == [] || a[0] < b[0] || (a[0] == b[0] && Less(a[1..], b[1..])))
  }

  predicate AtMost(a: string, b: string) {
    a == b || Less(a, b)
  }

  lemma {:induction false} DecidedIsLess(a: string, b: string, k: nat)
    requires DecidedAt(a, b, k)
    ensures Less(a, b)
  {
    if k > 0 {
      assert a[0] == a[..k][0] == b[..k][0] == b[0];
      assert a[1..][..k - 1] == a[..k][1..] && b[1..][..k - 1] == b[..k][1..];
      DecidedIsLess(a[1..], b[1..], k - 1);
    }
  }

  lemma {:induction false} LessIrreflexive(a: string)
    ensures !Less(a, a)
  {
    if a == [] {
    } else {
      LessIrreflexive(a[1..]);
    }
  }

  lemma {:induction false} LessTransitive(a: string, b: string, c: string)
    requires Less(a, b) && Less(b, c)
    ensures Less(a, c)
  {
    if a != [] && a[0] == b[0] == c[0] { LessTransitive(a[1..], b[1..], c[1..]); }
  }

  lemma LessAsymmetric(a: string, b: string)
    requires Less(a, b)
    ensures !Less(b, a) && a != b
  {
  }

  lemma {:induction false} LessTotal(a: string, b: string)
    ensures Less(a, b) || a == b || Less(b, a)
  {
    if a != [] && b != [] && a[0] == b[0] {
      LessTotal(a[1..], b[1..]);
      assert a == [a[0]] + a[1..] && b == [b[0]] + b[1..];
    }
  }

  /** Strings with a common literal prefix form an interval of the order. */
  lemma {:induction false} PrefixInterval(p: string, x: string, y: string, z: string)
    requires StartsWith(x, p) && StartsWith(z, p)
    requires Less(x, y) && Less(y, z)
    ensures StartsWith(y, p)
  {
    if p == [] {
    } else {
      assert x[0] == x[..|p|][0] == p[0] == z[..|p|][0] == z[0];
      assert y[0] == p[0];
      assert x[1..][..|p| - 1] == x[..|p|][1..] && z[1..][..|p| - 1] == z[..|p|][1..];
      PrefixInterval(p[1..], x[1..], y[1..], z[1..]);
      assert y[..|p|] == [y[0]] + y[1..][..|p| - 1];
      assert p == [p[0]] + p[1..];
    }
  }

  ghost predicate StrictlySorted(xs: seq<string>) {
    forall i, j | 0 <= i < j < |xs| :: Less(xs[i], xs[j])
  }
}

/** Python's `sorted`: a stable sort. */
module Sorting {

  ghost predicate Linear<T(!new)>(leq: (T, T) -> bool) {
    forall a, b :: leq(a, b) || leq(b, a)
  }

  ghost predicate Transitive<T(!new)>(leq: (T, T) -> bool) {
    forall a, b, c :: leq(a, b) && leq(b, c) ==> leq(a, c)
  }

  ghost predicate Sorted<T(!new)>(xs: seq<T>, leq: (T, T) -> bool) {
    forall i, j | 0 <= i < j < |xs| :: leq(xs[i], xs[j])
  }

  function Insert<T>(x: T, ys: seq<T>, leq: (T, T) -> bool): (r: seq<T>) {
    if ys == [] || leq(x, ys[0]) then [x] + ys else [ys[0]] + Insert(x, ys[1..], leq)
  }

  function Sort<T>(xs: seq<T>, leq: (T, T) -> bool): (r: seq<T>) {
    if xs == [] then [] else Insert(xs[0], Sort(xs[1..], leq), leq)
  }

  lemma {:induction false} InsertKeeps<T>(x: T, ys: seq<T>, leq: (T, T) -> bool)
    ensures multiset(Insert(x, ys, leq)) == multiset([x] + ys)
    ensures |Insert(x, ys, leq)| == |ys| + 1
  {
    if ys != [] && !leq(x, ys[0]) {
      InsertKeeps(x, ys[1..], leq);
      assert ys == [ys[0]] + ys[1..];
    }
  }

  lemma {:induction false} InsertSorted<T(!new)>(x: T, ys: seq<T>, leq: (T, T) -> bool)
    requires Linear(leq) && Transitive(leq) && Sorted(ys, leq)
    ensures Sorted(Insert(x, ys, leq), leq)
  {
    if ys != [] && !leq(x, ys[0]) {
      InsertSorted(x, ys[1..], leq);
      var r := Insert(x, ys[1..], leq);
      InsertKeeps(x, ys[1..], leq);
      forall j | 0 <= j < |r| ensures leq(ys[0], r[j]) {
        assert r[j] in multiset(r);
        assert r[j] in multiset([x] + ys[1..]);
        assert r[j] in [x] + ys[1..];
      }
    }
  }

  /** `sorted` returns the same elements. */
  lemma {:induction false} SortKeeps<T>(xs: seq<T>, leq: (T, T) -> bool)
    ensures multiset(Sort(xs, leq)) == multiset(xs)
    ensures |Sort(xs, leq)| == |xs|
    ensures forall x :: x in Sort(xs, leq) <==> x in xs
  {
    if xs == [] {
    } else {
      SortKeeps(xs[1..], leq);
      InsertKeeps(xs[0], Sort(xs[1..], leq), leq);
      assert xs == [xs[0]] + xs[1..];
    }
    forall x ensures x in Sort(xs, leq) <==> x in xs {
      assert x in Sort(xs, leq) <==> x in multiset(Sort(xs, leq));
      assert x in xs <==> x in multiset(xs);
    }
  }

  /** `sorted` returns them in order. */
  lemma {:induction false} SortSorts<T(!new)>(xs: seq<T>, leq: (T, T) -> bool)
    requires Linear(leq) && Transitive(leq)
    ensures Sorted(Sort(xs, leq), leq)
  {
    if xs == [] {
    } else {
      SortSorts(xs[1..], leq);
      InsertSorted(xs[0], Sort(xs[1..], leq), leq);
    }
  }

  ghost predicate Unique<T>(xs: seq<T>) {
    forall i, j | 0 <= i < j < |xs| :: xs[i] != xs[j]
  }

  lemma {:induction false} InsertUnique<T>(x: T, ys: seq<T>, leq: (T, T) -> bool)
    requires Unique(ys) && x !in ys
    ensures Unique(Insert(x, ys, leq))
    ensures forall y :: y in Insert(x, ys, leq) <==> y == x || y in ys
  {
    if ys != [] && !leq(x, ys[0]) {
      InsertUnique(x, ys[1..], leq);
      var r := Insert(x, ys[1..], leq);
      assert ys[0] !in r;
      assert forall j | 0 <= j < |r| :: r[j] in r;
      assert ys == [ys[0]] + ys[1..];
    }
  }

  /** `sorted` introduces no repetition. */
  lemma {:induction false} SortUnique<T>(xs: seq<T>, leq: (T, T) -> bool)
    requires Unique(xs)
    ensures Unique(Sort(xs, leq))
  {
    if xs == [] {
    } else {
      SortUnique(xs[1..], leq);
      SortKeeps(xs[1..], leq);
      InsertUnique(xs[0], Sort(xs[1..], leq), leq);
    }
  }
}

/** `sorted` on strings. */
module SortedStrings {
  import opened Lexicographic
  import opened Sorting

  function SortStrings(xs: seq<string>): seq<string> {
    Sort(xs, AtMost)
  }

  lemma AtMostLinear()
    ensures Linear(AtMost) && Transitive(AtMost)
  {
    forall a: string, b: string ensures AtMost(a, b) || AtMost(b, a) { LessTotal(a, b); }
    forall a: string, b: string, c: string | AtMost(a, b) && AtMost(b, c) ensures AtMost(a, c) {
      if Less(a, b) && Less(b, c) { LessTransitive(a, b, c); }
    }
  }

  /** Distinct strings sort into a strictly increasing list of the same strings. */
  lemma SortStringsExact(xs: seq<string>)
    requires Unique(xs)
    ensures StrictlySorted(SortStrings(xs)) && Unique(SortStrings(xs))
    ensures multiset(SortStrings(xs)) == multiset(xs)
    ensures forall x :: x in SortStrings(xs) <==> x in xs
  {
    AtMostLinear();
    SortKeeps(xs, AtMost);
    SortUnique(xs, AtMost);
    SortSorts(xs, AtMost);
    var r := SortStrings(xs);
    forall i, j | 0 <= i < j < |r| ensures Less(r[i], r[j]) {
      assert AtMost(r[i], r[j]);
    }
  }

  /** A list that is already increasing is not rearranged. */
  lemma {:induction false} SortStringsFixed(xs: seq<string>)
    requires StrictlySorted(xs)
    ensures SortStrings(xs) == xs
  {
    if xs == [] {
    } else {
      var rest := xs[1..];
      SortStringsFixed(rest);
      assert rest != [] ==> AtMost(xs[0], rest[0]);
      assert xs == [xs[0]] + rest;
    }
  }
}
