/** The Terraform parity report: kind-name candidates, coverage, and the counts it prints. */
module Parity {
  import opened Options
  import opened Text
  import opened Lists
  import opened Groups
  import opened Sorting

  // The lookup tables at the top of the script.
  datatype Tables = Tables(
    aliases: map<string, string>,
    services: map<string, string>,
    scope: set<string>,
    tier1: set<string>,
    modelled: set<string>)

  // ── Candidates ──────────────────────────────────────────────────────────────

  /** `s.replace(old, new)` */
  function Replace(s: string, from: string, to: string): string
    requires from != ""
  {
    if |s| < |from| then s
    else if s[..|from|] == from then to + Replace(s[|from|..], from, to)
    else [s[0]] + Replace(s[1..], from, to)
  }

  function Parts(r: string): (parts: seq<string>)
    ensures |parts| > 0
  {
    SplitOn(r, '_')
  }

  /** The first `n` components. */
  function Leading(parts: seq<string>, n: nat): string
    requires n <= |parts|
  {
    JoinWith(parts[..n], "_")
  }

  /** The most components, at most `n`, that form a table key; 0 when none do. */
  function Longest(services: map<string, string>, parts: seq<string>, n: nat): nat
    requires n <= |parts|
  {
    if n == 0 then 0
    else if Leading(parts, n) in services then n
    else Longest(services, parts, n - 1)
  }

  function Reach(parts: seq<string>): (n: nat)
    ensures n <= |parts| && n <= 3
  {
    if |parts| < 3 then |parts| else 3
  }

  function Expansions(services: map<string, string>, parts: seq<string>, n: nat): seq<string>
    requires 0 < n <= |parts| && Leading(parts, n) in services
  {
    var service, rest := services[Leading(parts, n)], Concat(parts[n..]);
    [service + rest, service + Replace(rest, "configuration", "config")]
  }

  function WithService(t: Tables, key: string, service: string): Tables {
    t.(services := t.services[key := service])
  }

  function ByService(services: map<string, string>, parts: seq<string>, n: nat): seq<string>
    requires n <= |parts|
  {
    LongestIsLongest(services, parts, n);
    if Longest(services, parts, n) == 0 then [] else Expansions(services, parts, Longest(services, parts, n))
  }

  function Candidates(t: Tables, r: string): seq<string> {
    [Replace(r, "_", "")] + (if r in t.aliases then [t.aliases[r]] else []) + ByService(t.services, Parts(r), Reach(Parts(r)))
  }

  method ComputeCandidates(t: Tables, r: string) returns (out: seq<string>)
    ensures out == Candidates(t, r)
  {
    out := [Replace(r, "_", "")];
    if r in t.aliases {
      out := out + [t.aliases[r]];
    }
    var parts := Parts(r);
    var n := Reach(parts);
    ghost var start := out;
    while n > 0
      invariant 0 <= n <= Reach(parts)
      invariant out == start
      invariant ByService(t.services, parts, n) == ByService(t.services, parts, Reach(parts))
    {
      var pre := Leading(parts, n);
      if pre in t.services {
        var rest := Concat(parts[n..]);
        out := out + [t.services[pre] + rest];
        out := out + [t.services[pre] + Replace(rest, "configuration", "config")];
        return;
      }
      n := n - 1;
    }
    assert start + [] == start;
  }

  /** The prefix taken is a table key, and no longer prefix within reach is one. */
  lemma {:induction false} LongestIsLongest(services: map<string, string>, parts: seq<string>, n: nat)
    requires n <= |parts|
    ensures var k := Longest(services, parts, n);
            && k <= n
            && (k > 0 ==> Leading(parts, k) in services)
            && (forall j | k < j <= n :: Leading(parts, j) !in services)
  {
    if n > 0 && Leading(parts, n) !in services { LongestIsLongest(services, parts, n - 1); }
  }

  lemma {:induction false} ReplaceDropsSeparator(r: string)
    ensures Replace(r, "_", "") == Concat(Parts(r))
  {
    if r == "" {
    } else {
      ReplaceDropsSeparator(r[1..]);
      assert r[..1] == [r[0]];
      var rest := Parts(r[1..]);
      if r[0] != '_' {
        assert [r[0]] + (rest[0] + Concat(rest[1..])) == ([r[0]] + rest[0]) + Concat(rest[1..]);
        assert Parts(r)[1..] == rest[1..];
      } else {
        assert Parts(r)[1..] == rest;
      }
    }
  }

  lemma {:induction false} ReplaceAbsent(s: string, from: string, to: string)
    requires from != ""
    ensures !Contains(s, from) ==> Replace(s, from, to) == s
  {
    if s == "" {
    } else {
      ReplaceAbsent(s[1..], from, to);
      assert s == [s[0]] + s[1..];
    }
  }

  // No proper ending of `word` is a beginning of it, so its occurrences never overlap.
  predicate Unbordered(word: string) {
    word != "" && forall d | 0 < d < |word| :: word[d..] != word[..|word| - d]
  }

  lemma {:induction false} NoEarlierOccurrence(a: string, from: string, b: string)
    requires Unbordered(from) && a != "" && !Contains(a, from)
    ensures !StartsWith(a + from + b, from)
  {
    var s := a + from + b;
    if |a| >= |from| {
      assert s[..|from|] == a[..|from|];
    } else {
      var d := |a|;
      assert s[..|from|][d..] == from[..|from| - d];
      assert from[d..] != from[..|from| - d];
    }
  }

  /** Replacing starts at the first occurrence and goes on behind it. */
  lemma {:induction false} ReplaceFirst(a: string, from: string, to: string, b: string)
    requires Unbordered(from) && !Contains(a, from)
    ensures Replace(a + from + b, from, to) == a + to + Replace(b, from, to)
  {
    var s := a + from + b;
    if a == "" {
      assert s[..|from|] == from && s[|from|..] == b;
    } else {
      NoEarlierOccurrence(a, from, b);
      assert s[1..] == a[1..] + from + b;
      ReplaceFirst(a[1..], from, to, b);
      assert [a[0]] + (a[1..] + to + Replace(b, from, to)) == a + to + Replace(b, from, to);
    }
  }

  // The text between the occurrences of a word.
  predicate CleanPieces(pieces: seq<string>, word: string) {
    pieces != [] && forall p | p in pieces :: !Contains(p, word)
  }

  /** All occurrences are replaced and nothing else is. */
  lemma {:induction false} ReplaceExact(pieces: seq<string>, from: string, to: string)
    requires Unbordered(from) && CleanPieces(pieces, from)
    ensures Replace(JoinWith(pieces, from), from, to) == JoinWith(pieces, to)
  {
    if |pieces| == 1 {
      ReplaceAbsent(pieces[0], from, to);
    } else {
      ReplaceExact(pieces[1..], from, to);
      ReplaceFirst(pieces[0], from, to, JoinWith(pieces[1..], from));
    }
  }

  lemma {:induction false} PiecesExist(s: string, word: string) returns (pieces: seq<string>)
    requires Unbordered(word)
    ensures CleanPieces(pieces, word) && JoinWith(pieces, word) == s
    decreases |s|
  {
    if !Contains(s, word) {
      pieces := [s];
    } else {
      var a, b := FirstOccurrence(s, word);
      var rest := PiecesExist(b, word);
      pieces := [a] + rest;
      assert pieces[1..] == rest;
    }
  }

  lemma {:induction false} FirstOccurrence(s: string, word: string) returns (a: string, b: string)
    requires Unbordered(word) && Contains(s, word)
    ensures s == a + word + b && !Contains(a, word)
  {
    if StartsWith(s, word) {
      a, b := "", s[|word|..];
    } else {
      var a', b' := FirstOccurrence(s[1..], word);
      a, b := [s[0]] + a', b';
      assert s == [s[0]] + s[1..];
      assert a[1..] == a';
      assert StartsWith(a, word) ==> StartsWith(s, word);
    }
  }

  lemma ConfigurationUnbordered()
    ensures Unbordered("configuration")
  {
    var w := "configuration";
    forall d | 0 < d < |w| ensures w[d..] != w[..|w| - d] {
      assert w[d..][0] == w[d] != 'c' == w[0] == w[..|w| - d][0];
    }
  }

  /** The name without separators comes first and an alias second; the last two use the longest
      table prefix of at most three components, if there is any: the service with what follows the
      prefix, and the same with every "configuration" abbreviated. There are no others. */
  lemma CandidatesExact(t: Tables, r: string)
    ensures var c, parts, given := Candidates(t, r), Parts(r), if r in t.aliases then 2 else 1;
            && c[0] == Concat(parts)
            && (r in t.aliases ==> |c| > 1 && c[1] == t.aliases[r])
            && (forall n: nat | IsLongest(t, parts, n) ::
                  && |c| == given + 2
                  && c[given] == t.services[Leading(parts, n)] + Concat(parts[n..])
                  && Abbreviates(c[given + 1], t.services[Leading(parts, n)], Concat(parts[n..])))
            && ((forall n | 0 < n <= Reach(parts) :: Leading(parts, n) !in t.services) ==> |c| == given)
  {
    ReplaceDropsSeparator(r);
    var parts := Parts(r);
    LongestIsLongest(t.services, parts, Reach(parts));
    forall n: nat | IsLongest(t, parts, n)
      ensures Longest(t.services, parts, Reach(parts)) == n
      ensures Abbreviates(Expansions(t.services, parts, n)[1], t.services[Leading(parts, n)], Concat(parts[n..]))
    {
      AbbreviationExact(t.services[Leading(parts, n)], Concat(parts[n..]));
    }
  }

  /** The first `n` components are a table key, and no more of the first three are. */
  ghost predicate IsLongest(t: Tables, parts: seq<string>, n: nat) {
    && 0 < n <= |parts| && n <= 3 && Leading(parts, n) in t.services
    && forall j | n < j <= |parts| && j <= 3 :: Leading(parts, j) !in t.services
  }

  /** `cand` is the service followed by `rest` with all its "configuration" cut to "config". */
  ghost predicate Abbreviates(cand: string, service: string, rest: string) {
    exists pieces ::
      CleanPieces(pieces, "configuration") && JoinWith(pieces, "configuration") == rest
      && cand == service + JoinWith(pieces, "config")
  }

  lemma AbbreviationExact(service: string, rest: string)
    ensures Abbreviates(service + Replace(rest, "configuration", "config"), service, rest)
  {
    ConfigurationUnbordered();
    var pieces := PiecesExist(rest, "configuration");
    ReplaceExact(pieces, "configuration", "config");
  }

  /** There is only one such text. */
  lemma AbbreviationUnique(cand: string, other: string, service: string, rest: string)
    requires Abbreviates(cand, service, rest) && Abbreviates(other, service, rest)
    ensures cand == other
  {
    ConfigurationUnbordered();
    var ps :| CleanPieces(ps, "configuration") && JoinWith(ps, "configuration") == rest && cand == service + JoinWith(ps, "config");
    var qs :| CleanPieces(qs, "configuration") && JoinWith(qs, "configuration") == rest && other == service + JoinWith(qs, "config");
    ReplaceExact(ps, "configuration", "config");
    ReplaceExact(qs, "configuration", "config");
  }

  lemma LeadingParts(r: string, n: nat)
    requires 0 < n <= |Parts(r)|
    ensures Parts(Leading(Parts(r), n)) == Parts(r)[..n]
    ensures n == |Parts(r)| ==> Leading(Parts(r), n) == r
  {
    SplitClean(r, '_');
    assert forall p | p in Parts(r)[..n] :: p in Parts(r);
    SplitJoin(Parts(r)[..n], '_');
    JoinSplit(r, '_');
    assert Parts(r)[..|Parts(r)|] == Parts(r);
  }

  lemma {:induction false} LongestSame(services: map<string, string>, services': map<string, string>, parts: seq<string>, n: nat)
    requires n <= |parts|
    requires forall j | 0 < j <= n :: Leading(parts, j) in services <==> Leading(parts, j) in services'
    ensures Longest(services, parts, n) == Longest(services', parts, n)
  {
    if n > 0 { LongestSame(services, services', parts, n - 1); }
  }

  /** A table key of four or more components is never looked up. */
  lemma LongKeyIgnored(t: Tables, key: string, service: string, r: string)
    requires |Parts(key)| > 3
    ensures Candidates(WithService(t, key, service), r) == Candidates(t, r)
  {
    var parts := Parts(r);
    forall j | 0 < j <= Reach(parts) ensures Leading(parts, j) != key { LeadingParts(r, j); }
    LongestSame(t.services, t.services[key := service], parts, Reach(parts));
    LongestIsLongest(t.services, parts, Reach(parts));
  }

  lemma {:induction false} FlattenIsLonger(parts: seq<string>)
    ensures forall p | p in parts :: |p| <= |Concat(parts)|
  {
    if parts == [] {
    } else {
      FlattenIsLonger(parts[1..]);
      assert forall p | p in parts :: p == parts[0] || p in parts[1..];
    }
  }

  /** A key of at most three components is looked up for the resource of that very name. */
  lemma ShortKeyMatters(t: Tables, key: string) returns (service: string)
    requires |Parts(key)| <= 3
    ensures Candidates(WithService(t, key, service), key) != Candidates(t, key)
  {
    var known := Candidates(t, key);
    service := Repeat('x', |Concat(known)| + 1);
    FlattenIsLonger(known);
    assert service !in known;
    var services := t.services[key := service];
    var parts := Parts(key);
    LeadingParts(key, |parts|);
    assert parts[|parts|..] == [];
    assert Longest(services, parts, |parts|) == |parts|;
    assert service + "" == service;
    var changed := Candidates(WithService(t, key, service), key);
    assert Expansions(services, parts, |parts|)[0] == service;
    assert service in ByService(services, parts, |parts|);
    assert service in changed;
  }

  /** An entry of the prefix table can influence some resource exactly when its key has at most
      three components. */
  lemma KeyInfluenceExact(t: Tables, key: string)
    ensures |Parts(key)| <= 3 <==>
            exists service, r :: Candidates(WithService(t, key, service), r) != Candidates(t, r)
  {
    if |Parts(key)| <= 3 {
      var service := ShortKeyMatters(t, key);
      assert Candidates(WithService(t, key, service), key) != Candidates(t, key);
    } else {
      forall service, r ensures Candidates(WithService(t, key, service), r) == Candidates(t, r) {
        LongKeyIgnored(t, key, service, r);
      }
    }
  }

  const DEAD_KEY := "egress_only_internet_gateway"

  lemma JoinFour(a: string, b: string, c: string, d: string)
    ensures JoinWith([a, b, c, d], "_") == a + "_" + (b + "_" + (c + "_" + d))
  {
    assert [a, b, c, d][1..] == [b, c, d] && [b, c, d][1..] == [c, d] && [c, d][1..] == [d];
    assert JoinWith([c, d], "_") == c + "_" + d;
    assert JoinWith([b, c, d], "_") == b + "_" + JoinWith([c, d], "_");
  }

  lemma DeadKeyText()
    ensures "egress" + "_" + ("only" + "_" + ("internet" + "_" + "gateway")) == DEAD_KEY
  {
  }

  lemma DeadKeyParts()
    ensures |Parts(DEAD_KEY)| == 4
  {
    DeadKeyText();
    JoinFour("egress", "only", "internet", "gateway");
    SplitJoin(["egress", "only", "internet", "gateway"], '_');
  }

  /** One shipped key is of that kind, so its entry is dead. */
  lemma ShippedDeadKey(t: Tables, service: string, r: string)
    ensures Candidates(WithService(t, DEAD_KEY, service), r) == Candidates(t, r)
  {
    DeadKeyParts();
    LongKeyIgnored(t, DEAD_KEY, service, r);
  }

  // ── Coverage ────────────────────────────────────────────────────────────────

  function FirstIn(cands: seq<string>, kinds: set<string>): Option<string> {
    if cands == [] then None
    else if cands[0] in kinds then Some(cands[0])
    else FirstIn(cands[1..], kinds)
  }

  function Hit(t: Tables, kinds: set<string>, r: string): Option<string> {
    FirstIn(Candidates(t, r), kinds)
  }

  function Covered(t: Tables, kinds: set<string>, names: seq<string>): map<string, string> {
    map r | r in names && Hit(t, kinds, r).Some? :: Hit(t, kinds, r).value
  }

  method Cover(t: Tables, kinds: set<string>, names: seq<string>) returns (covered: map<string, string>)
    ensures covered == Covered(t, kinds, names)
  {
    covered := map[];
    for i := 0 to |names|
      invariant covered == Covered(t, kinds, names[..i])
    {
      CoveredStep(t, kinds, names, i);
      var r := names[i];
      var cands := ComputeCandidates(t, r);
      ghost var before := covered;
      var j := 0;
      while j < |cands|
        invariant 0 <= j <= |cands|
        invariant covered == before
        invariant FirstIn(cands[j..], kinds) == Hit(t, kinds, r)
      {
        if cands[j] in kinds {
          covered := covered[r := cands[j]];
          break;
        }
        j := j + 1;
      }
    }
    assert names[..|names|] == names;
  }

  lemma CoveredStep(t: Tables, kinds: set<string>, names: seq<string>, i: nat)
    requires i < |names|
    ensures Covered(t, kinds, names[..i + 1])
            == if Hit(t, kinds, names[i]).Some? then Covered(t, kinds, names[..i])[names[i] := Hit(t, kinds, names[i]).value]
               else Covered(t, kinds, names[..i])
  {
  }

  /** The recorded kind is the first candidate that exists. */
  lemma {:induction false} FirstInIsFirst(cands: seq<string>, kinds: set<string>)
    ensures FirstIn(cands, kinds).None? <==> forall c | c in cands :: c !in kinds
    ensures FirstIn(cands, kinds).Some? ==>
              exists i | 0 <= i < |cands| ::
                FirstIn(cands, kinds).value == cands[i] && cands[i] in kinds && forall j | 0 <= j < i :: cands[j] !in kinds
  {
    if cands != [] && cands[0] !in kinds {
      FirstInIsFirst(cands[1..], kinds);
      if FirstIn(cands[1..], kinds).Some? {
        var i :| 0 <= i < |cands[1..]| && FirstIn(cands, kinds).value == cands[1..][i] && cands[1..][i] in kinds
                 && forall j | 0 <= j < i :: cands[1..][j] !in kinds;
        assert cands[i + 1] == cands[1..][i];
        forall j | 0 <= j < i + 1 ensures cands[j] !in kinds {
          if j > 0 { assert cands[j] == cands[1..][j - 1]; }
        }
      }
    }
  }

  // ── Scope, gap and tiers ────────────────────────────────────────────────────

  /** `prefix`: the first component. */
  function Head(r: string): string {
    Parts(r)[0]
  }

  function ScopeTest(t: Tables): string -> bool {
    (r: string) => Head(r) in t.scope
  }

  function ParentedTest(t: Tables, covered: map<string, string>): string -> bool {
    (r: string) => r !in covered && r in t.modelled
  }

  function GapTest(t: Tables, covered: map<string, string>): string -> bool {
    (r: string) => r !in covered && r !in t.modelled
  }

  function Tier1Test(t: Tables): string -> bool {
    (r: string) => Head(r) in t.tier1
  }

  function InScope(t: Tables, names: seq<string>): seq<string> {
    Filter(names, ScopeTest(t))
  }

  function Parented(t: Tables, names: seq<string>, covered: map<string, string>): seq<string> {
    Filter(InScope(t, names), ParentedTest(t, covered))
  }

  function Gap(t: Tables, names: seq<string>, covered: map<string, string>): seq<string> {
    Filter(InScope(t, names), GapTest(t, covered))
  }

  // The counts in the report; two are printed as differences.
  datatype Counts = Counts(
    resources: int, covered: int, uncovered: int,
    inScope: int, coveredInScope: int, parented: int, tier1: int, tier2: int, outOfScope: int)

  function Report(t: Tables, names: seq<string>, covered: map<string, string>): Counts {
    var gap := Gap(t, names, covered);
    var parented := Parented(t, names, covered);
    Counts(|names|, |covered|, |names| - |covered|,
           |InScope(t, names)|, |InScope(t, names)| - |gap| - |parented|, |parented|,
           |Filter(gap, Tier1Test(t))|, |Filter(gap, Not(Tier1Test(t)))|, |Filter(names, Not(ScopeTest(t)))|)
  }

  // The classes of resources that the report names.
  ghost predicate IsCovered(t: Tables, kinds: set<string>, r: string) {
    exists c :: c in Candidates(t, r) && c in kinds
  }

  ghost predicate Scoped(t: Tables, r: string) {
    Head(r) in t.scope
  }

  ghost predicate IsParented(t: Tables, kinds: set<string>, r: string) {
    Scoped(t, r) && !IsCovered(t, kinds, r) && r in t.modelled
  }

  ghost predicate InGap(t: Tables, kinds: set<string>, r: string) {
    Scoped(t, r) && !IsCovered(t, kinds, r) && r !in t.modelled
  }

  lemma CoveredExact(t: Tables, kinds: set<string>, names: seq<string>, r: string)
    ensures r in Covered(t, kinds, names) <==> r in names && IsCovered(t, kinds, r)
  {
    FirstInIsFirst(Candidates(t, r), kinds);
  }

  /** The gap consists of the in-scope names that no kind covers and no parent models, each once. */
  lemma GapExact(t: Tables, kinds: set<string>, names: seq<string>)
    requires Unique(names)
    ensures var gap := Gap(t, names, Covered(t, kinds, names));
            && Unique(gap)
            && (forall r :: r in gap <==> r in names && InGap(t, kinds, r))
            && |gap| == |set r | r in names && InGap(t, kinds, r)|
  {
    var test := And(ScopeTest(t), GapTest(t, Covered(t, kinds, names)));
    FilterTwice(names, ScopeTest(t), GapTest(t, Covered(t, kinds, names)));
    FilterUnique(names, test);
    FilterCounts(names, test);
    FilterMembers(names, test);
    forall r | r in names ensures test(r) <==> InGap(t, kinds, r) { CoveredExact(t, kinds, names, r); }
    assert Where(names, test) == set r | r in names && InGap(t, kinds, r);
  }

  lemma ParentedExact(t: Tables, kinds: set<string>, names: seq<string>)
    requires Unique(names)
    ensures |Parented(t, names, Covered(t, kinds, names))| == |set r | r in names && IsParented(t, kinds, r)|
  {
    var test := And(ScopeTest(t), ParentedTest(t, Covered(t, kinds, names)));
    FilterTwice(names, ScopeTest(t), ParentedTest(t, Covered(t, kinds, names)));
    FilterCounts(names, test);
    forall r | r in names ensures test(r) <==> IsParented(t, kinds, r) { CoveredExact(t, kinds, names, r); }
    assert Where(names, test) == set r | r in names && IsParented(t, kinds, r);
  }

  lemma {:induction false} SetOfUnique(names: seq<string>)
    requires Unique(names)
    ensures |set r | r in names| == |names|
  {
    if names == [] {
    } else {
      var init, last := names[..|names| - 1], names[|names| - 1];
      SetOfUnique(init);
      assert names == init + [last];
      assert (set r | r in names) == (set r | r in init) + {last};
    }
  }

  lemma CoveredKeys(t: Tables, kinds: set<string>, names: seq<string>)
    ensures Covered(t, kinds, names).Keys == set r | r in names && IsCovered(t, kinds, r)
  {
    forall r ensures r in Covered(t, kinds, names) <==> r in names && IsCovered(t, kinds, r) {
      CoveredExact(t, kinds, names, r);
    }
  }

  lemma CoveredCount(t: Tables, kinds: set<string>, names: seq<string>)
    requires Unique(names)
    ensures |Covered(t, kinds, names)| == |set r | r in names && IsCovered(t, kinds, r)|
    ensures |names| - |Covered(t, kinds, names)| == |set r | r in names && !IsCovered(t, kinds, r)|
  {
    CoveredKeys(t, kinds, names);
    SetOfUnique(names);
    var hit := set r | r in names && IsCovered(t, kinds, r);
    var missed := set r | r in names && !IsCovered(t, kinds, r);
    assert |Covered(t, kinds, names)| == |hit|;
    assert (set r | r in names) == hit + missed && hit !! missed;
  }

  lemma InScopeCount(t: Tables, names: seq<string>)
    requires Unique(names)
    ensures |InScope(t, names)| == |set r | r in names && Scoped(t, r)|
    ensures |Filter(names, Not(ScopeTest(t)))| == |set r | r in names && !Scoped(t, r)|
    ensures |InScope(t, names)| + |Filter(names, Not(ScopeTest(t)))| == |names|
  {
    FilterCounts(names, ScopeTest(t));
    FilterCounts(names, Not(ScopeTest(t)));
    assert Where(names, Not(ScopeTest(t))) == set r | r in names && !Scoped(t, r);
    assert Where(names, ScopeTest(t)) == set r | r in names && Scoped(t, r);
    FilterSplit(names, ScopeTest(t));
  }

  lemma ScopeSplit(t: Tables, kinds: set<string>, names: seq<string>)
    ensures |set r | r in names && Scoped(t, r)|
         == |set r | r in names && Scoped(t, r) && IsCovered(t, kinds, r)|
          + |set r | r in names && IsParented(t, kinds, r)|
          + |set r | r in names && InGap(t, kinds, r)|
  {
    var hit := set r | r in names && Scoped(t, r) && IsCovered(t, kinds, r);
    var parented := set r | r in names && IsParented(t, kinds, r);
    var gap := set r | r in names && InGap(t, kinds, r);
    assert (set r | r in names && Scoped(t, r)) == hit + parented + gap;
    assert hit !! parented && (hit + parented) !! gap;
  }

  /** Each tier is the part of the gap on its side of the tier test. */
  lemma TierCounts(t: Tables, kinds: set<string>, names: seq<string>)
    requires Unique(names)
    ensures var gap := Gap(t, names, Covered(t, kinds, names));
            && |Filter(gap, Tier1Test(t))| == |set r | r in names && InGap(t, kinds, r) && Head(r) in t.tier1|
            && |Filter(gap, Not(Tier1Test(t)))| == |set r | r in names && InGap(t, kinds, r) && Head(r) !in t.tier1|
  {
    var gap := Gap(t, names, Covered(t, kinds, names));
    GapExact(t, kinds, names);
    FilterCounts(gap, Tier1Test(t));
    FilterCounts(gap, Not(Tier1Test(t)));
    assert Where(gap, Tier1Test(t)) == set r | r in names && InGap(t, kinds, r) && Head(r) in t.tier1;
    assert Where(gap, Not(Tier1Test(t))) == set r | r in names && InGap(t, kinds, r) && Head(r) !in t.tier1;
  }

  /** Every count in the report, also the two printed as differences, is the size of the set of
      resources it names, and the classes add up to all resources. */
  lemma ReportExact(t: Tables, kinds: set<string>, names: seq<string>)
    requires Unique(names)
    ensures var c := Report(t, names, Covered(t, kinds, names));
            && c.resources == |set r | r in names|
            && c.covered == |set r | r in names && IsCovered(t, kinds, r)|
            && c.uncovered == |set r | r in names && !IsCovered(t, kinds, r)|
            && c.inScope == |set r | r in names && Scoped(t, r)|
            && c.coveredInScope == |set r | r in names && Scoped(t, r) && IsCovered(t, kinds, r)|
            && c.parented == |set r | r in names && IsParented(t, kinds, r)|
            && c.tier1 == |set r | r in names && InGap(t, kinds, r) && Head(r) in t.tier1|
            && c.tier2 == |set r | r in names && InGap(t, kinds, r) && Head(r) !in t.tier1|
            && c.outOfScope == |set r | r in names && !Scoped(t, r)|
            && c.resources == c.outOfScope + c.coveredInScope + c.parented + c.tier1 + c.tier2
  {
    SetOfUnique(names);
    CoveredCount(t, kinds, names);
    InScopeCount(t, names);
    GapExact(t, kinds, names);
    ParentedExact(t, kinds, names);
    ScopeSplit(t, kinds, names);
    TierCounts(t, kinds, names);
    FilterSplit(Gap(t, names, Covered(t, kinds, names)), Tier1Test(t));
  }

  // ── Prefix tables ───────────────────────────────────────────────────────────

  function HeadPairs(names: seq<string>): (r: seq<(string, string)>)
    ensures |r| == |names| && forall i | 0 <= i < |names| :: r[i] == (Head(names[i]), names[i])
  {
    seq(|names|, i requires 0 <= i < |names| => (Head(names[i]), names[i]))
  }

  /** `Counter(prefix(r) for r in names).most_common()`: a prefix with the names it counts. */
  function PrefixTable(names: seq<string>): seq<Group<string>> {
    Sort(Grouped(HeadPairs(names)), BySize)
  }

  function HeadTest(p: string): string -> bool {
    (r: string) => Head(r) == p
  }

  lemma {:induction false} UnderHead(names: seq<string>, p: string)
    ensures Under(HeadPairs(names), p) == Filter(names, HeadTest(p))
  {
    if names == [] {
    } else {
      var init := names[..|names| - 1];
      UnderHead(init, p);
      assert HeadPairs(names)[..|names| - 1] == HeadPairs(init);
    }
  }

  /** A prefix table has a line for each prefix in use, counting the names that carry it. */
  lemma PrefixTableMembers(names: seq<string>, g: Group<string>)
    ensures g in PrefixTable(names) <==> g.items == Filter(names, HeadTest(g.key)) && g.items != []
  {
    SortKeeps(Grouped(HeadPairs(names)), BySize);
    GroupMembers(HeadPairs(names), g);
    UnderHead(names, g.key);
  }

  /** Its counts sum to the number of names, and the most frequent prefix comes first. */
  lemma PrefixTableTotal(names: seq<string>)
    ensures Total(PrefixTable(names)) == |names|
    ensures forall i, j | 0 <= i < j < |PrefixTable(names)| ::
              |PrefixTable(names)[i].items| >= |PrefixTable(names)[j].items|
  {
    var gs := Grouped(HeadPairs(names));
    GroupedExact(HeadPairs(names));
    SortTotal(gs, BySize);
    SortSorts(gs, BySize);
    forall i, j | 0 <= i < j < |PrefixTable(names)|
      ensures |PrefixTable(names)[i].items| >= |PrefixTable(names)[j].items|
    {
      assert BySize(PrefixTable(names)[i], PrefixTable(names)[j]);
    }
  }

  // ── More kinds ──────────────────────────────────────────────────────────────

  function StillOpen(covered: map<string, string>): string -> bool {
    (r: string) => r !in covered
  }

  /** Adding kinds covers whatever was covered, and the gap only loses the newly covered names. */
  lemma CoverageMonotone(t: Tables, kinds: set<string>, more: set<string>, names: seq<string>)
    requires kinds <= more
    ensures Covered(t, kinds, names).Keys <= Covered(t, more, names).Keys
    ensures Gap(t, names, Covered(t, more, names))
         == Filter(Gap(t, names, Covered(t, kinds, names)), StillOpen(Covered(t, more, names)))
  {
    var before, after := Covered(t, kinds, names), Covered(t, more, names);
    forall r | r in before ensures r in after {
      CoveredExact(t, kinds, names, r);
      CoveredExact(t, more, names, r);
    }
    FilterTwice(InScope(t, names), GapTest(t, before), StillOpen(after));
    FilterSame(InScope(t, names), And(GapTest(t, before), StillOpen(after)), GapTest(t, after));
  }
}
