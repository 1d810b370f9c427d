/** The datatype for a value that may be absent. */
module Options {
  datatype Option<+T> = None | Some(value: T)
}

/** String and list helpers of the Python runtime that the three scripts rely on. */
module Text {

  predicate EndsWith(s: string, t: string) {
    |t| <= |s| && s[|s| - |t|..] == t
  }

  predicate StartsWith(s: string, t: string) {
    |t| <= |s| && s[..|t|] == t
  }

  predicate Contains(s: string, t: string) {
    StartsWith(s, t) || (s != "" && Contains(s[1..], t))
  }

  /** `s.removesuffix(t)` */
  function RemoveSuffix(s: string, t: string): string {
    if t != "" && EndsWith(s, t) then s[..|s| - |t|] else s
  }

  /** `c * n` for a one-letter string. */
  function Repeat(c: char, n: nat): (r: string)
    ensures |r| == n
  {
    seq(n, _ => c)
  }

  /** Cuts a list at every element that satisfies `sep`; the separators themselves are dropped. */
  function SplitWhere<T>(s: seq<T>, sep: T -> bool): (parts: seq<seq<T>>)
    ensures |parts| > 0
  {
    if s == [] then [[]]
    else
      var rest := SplitWhere(s[1..], sep);
      if sep(s[0]) then [[]] + rest else [[s[0]] + rest[0]] + rest[1..]
  }

  /** `s.split(c)` */
  function SplitOn(s: string, c: char): (parts: seq<string>)
    ensures |parts| > 0
  {
    SplitWhere(s, (x: char) => x == c)
  }

  /** `c.join(parts)` */
  function JoinWith(parts: seq<string>, c: string): string {
    if parts == [] then ""
    else if |parts| == 1 then parts[0]
    else parts[0] + c + JoinWith(parts[1..], c)
  }

  function Concat<T>(xs: seq<seq<T>>): seq<T> {
    if xs == [] then [] else xs[0] + Concat(xs[1..])
  }

  /** Splitting distributes over a separator, whatever stands on either side of it. */
  lemma {:induction false} SplitAtSeparator<T>(a: seq<T>, m: T, b: seq<T>, sep: T -> bool)
    requires sep(m)
    ensures SplitWhere(a + [m] + b, sep) == SplitWhere(a, sep) + SplitWhere(b, sep)
  {
    if a == [] {
      assert a + [m] + b == [m] + b;
      assert ([m] + b)[1..] == b;
    } else {
      assert (a + [m] + b)[1..] == a[1..] + [m] + b;
      SplitAtSeparator(a[1..], m, b, sep);
    }
  }

  /** Appending an ordinary element only lengthens the last part. */
  lemma {:induction false} SplitAppend<T>(a: seq<T>, x: T, sep: T -> bool)
    requires !sep(x)
    ensures var p := SplitWhere(a, sep);
            SplitWhere(a + [x], sep) == p[..|p| - 1] + [p[|p| - 1] + [x]]
  {
    if a == [] {
      assert a + [x] == [x] && [x][1..] == a;
      assert [x] + SplitWhere(a, sep)[0] == SplitWhere(a, sep)[0] + [x];
    } else {
      assert (a + [x])[1..] == a[1..] + [x];
      SplitAppend(a[1..], x, sep);
      var q := SplitWhere(a[1..], sep);
      if !sep(a[0]) && |q| == 1 {
        assert [a[0]] + (q[0] + [x]) == ([a[0]] + q[0]) + [x];
      }
    }
  }

  /** A list without separators is a single part. */
  lemma {:induction false} SplitNone<T>(s: seq<T>, sep: T -> bool)
    requires forall x | x in s :: !sep(x)
    ensures SplitWhere(s, sep) == [s]
  {
    if s == [] {
    } else {
      SplitNone(s[1..], sep);
      assert [s[0]] + s[1..] == s;
    }
  }

  /** `c.join` undoes `split(c)`. */
  lemma {:induction false} JoinSplit(s: string, c: char)
    ensures JoinWith(SplitOn(s, c), [c]) == s
  {
    if s == [] {
    } else {
      JoinSplit(s[1..], c);
      assert s == [s[0]] + s[1..];
      var rest := SplitOn(s[1..], c);
      if s[0] != c && |rest| > 1 {
        assert ([s[0]] + rest[0]) + [c] + JoinWith(rest[1..], [c]) == [s[0]] + (rest[0] + [c] + JoinWith(rest[1..], [c]));
      }
    }
  }

  /** `split(c)` undoes `c.join` on parts without `c`. */
  lemma {:induction false} SplitJoin(parts: seq<string>, c: char)
    requires parts != [] && forall p | p in parts :: c !in p
    ensures SplitOn(JoinWith(parts, [c]), c) == parts
  {
    var sep := (x: char) => x == c;
    SplitNone(parts[0], sep);
    if |parts| > 1 {
      SplitJoin(parts[1..], c);
      SplitAtSeparator(parts[0], c, JoinWith(parts[1..], [c]), sep);
    }
  }

  lemma {:induction false} SplitClean(s: string, c: char)
    ensures forall p | p in SplitOn(s, c) :: c !in p
  {
    if s == [] {
    } else {
      SplitClean(s[1..], c);
    }
  }
}
