/** The loop that prints the gap under one heading per prefix. */
module Headings {
  import opened Options
  import opened Text
  import opened Lists
  import opened Lexicographic
  import opened Sorting
  import opened SortedStrings
  import opened Parity

  datatype Line = Heading(prefix: string) | Item(name: string, tier1: bool)

  /** A heading starts wherever the prefix changes. */
  predicate Starts(gap: seq<string>, i: nat)
    requires i < |gap|
  {
    i == 0 || Head(gap[i - 1]) != Head(gap[i])
  }

  function Rendered(gap: seq<string>, tier1: seq<string>): seq<Line> {
    if gap == [] then []
    else
      var n := |gap| - 1;
      Rendered(gap[..n], tier1)
      + (if Starts(gap, n) then [Heading(Head(gap[n]))] else [])
      + [Item(gap[n], gap[n] in tier1)]
  }

  method Render(gap: seq<string>, tier1: seq<string>) returns (doc: seq<Line>)
    ensures doc == Rendered(gap, tier1)
  {
    doc := [];
    var cur: Option<string> := None;
    for i := 0 to |gap|
      invariant doc == Rendered(gap[..i], tier1)
      invariant cur == if i == 0 then None else Some(Head(gap[i - 1]))
    {
      var r := gap[i];
      ghost var before := doc;
      if Some(Head(r)) != cur {
        cur := Some(Head(r));
        doc := doc + [Heading(Head(r))];
      }
      doc := doc + [Item(r, r in tier1)];
      assert gap[..i + 1][..i] == gap[..i];
      assert doc == before + (if Starts(gap, i) then [Heading(Head(r))] else []) + [Item(r, r in tier1)];
    }
    assert gap[..|gap|] == gap;
  }

  // ── Headings ────────────────────────────────────────────────────────────────

  /** The headings in order of appearance. */
  function HeadingsOf(doc: seq<Line>): seq<string> {
    if doc == [] then []
    else HeadingsOf(doc[..|doc| - 1]) + if doc[|doc| - 1].Heading? then [doc[|doc| - 1].prefix] else []
  }

  // Names of one prefix stand together.
  ghost predicate Contiguous(gap: seq<string>) {
    forall i, j, k | 0 <= i < j < k < |gap| && Head(gap[i]) == Head(gap[k]) :: Head(gap[j]) == Head(gap[i])
  }

  function RunHeads(gap: seq<string>): seq<string> {
    if gap == [] then []
    else
      var n := |gap| - 1;
      RunHeads(gap[..n]) + if Starts(gap, n) then [Head(gap[n])] else []
  }

  lemma {:induction false} HeadingsAreRunHeads(gap: seq<string>, tier1: seq<string>)
    ensures HeadingsOf(Rendered(gap, tier1)) == RunHeads(gap)
  {
    if gap == [] {
    } else {
      var n := |gap| - 1;
      var init := Rendered(gap[..n], tier1);
      var item := Item(gap[n], gap[n] in tier1);
      HeadingsAreRunHeads(gap[..n], tier1);
      if Starts(gap, n) {
        var withHeading := init + [Heading(Head(gap[n]))];
        assert withHeading[..|withHeading| - 1] == init;
        assert (withHeading + [item])[..|withHeading|] == withHeading;
      } else {
        assert init + [] == init;
        assert (init + [item])[..|init|] == init;
      }
    }
  }

  lemma {:induction false} RunHeadsExact(gap: seq<string>)
    ensures forall h :: h in RunHeads(gap) <==> exists i :: 0 <= i < |gap| && Head(gap[i]) == h
  {
    if gap == [] {
    } else {
      var n := |gap| - 1;
      RunHeadsExact(gap[..n]);
      forall h ensures h in RunHeads(gap) <==> exists i :: 0 <= i < |gap| && Head(gap[i]) == h {
        if h in RunHeads(gap[..n]) {
          var i :| 0 <= i < n && Head(gap[..n][i]) == h;
          assert Head(gap[i]) == h;
        }
        if i :| 0 <= i < |gap| && Head(gap[i]) == h {
          if i < n { assert gap[..n][i] == gap[i]; }
        }
      }
    }
  }

  lemma NoRepeatAppend(xs: seq<string>, x: string)
    ensures Unique(xs + [x]) <==> Unique(xs) && x !in xs
  {
    var r := xs + [x];
    if Unique(r) {
      assert forall i | 0 <= i < |xs| :: r[i] == xs[i] && r[i] != r[|xs|];
    }
  }

  lemma LastStartsRun(gap: seq<string>)
    requires |gap| > 1 && Head(gap[|gap| - 2]) != Head(gap[|gap| - 1])
    ensures Contiguous(gap) <==>
            Contiguous(gap[..|gap| - 1]) && forall i | 0 <= i < |gap| - 1 :: Head(gap[i]) != Head(gap[|gap| - 1])
  {
  }

  /** No heading repeats exactly when the names of each prefix stand together. */
  lemma {:induction false} NoRepeatExact(gap: seq<string>)
    ensures Unique(RunHeads(gap)) <==> Contiguous(gap)
  {
    if |gap| > 1 {
      var n := |gap| - 1;
      var init := gap[..n];
      NoRepeatExact(init);
      if Starts(gap, n) {
        RunHeadsExact(init);
        NoRepeatAppend(RunHeads(init), Head(gap[n]));
        LastStartsRun(gap);
        assert Head(gap[n]) in RunHeads(init) <==> exists i :: 0 <= i < n && Head(gap[i]) == Head(gap[n]) by {
          if i :| 0 <= i < n && Head(gap[i]) == Head(gap[n]) { assert Head(init[i]) == Head(gap[n]); }
        }
      } else {
        LastJoinsRun(gap);
        assert RunHeads(gap) == RunHeads(init);
      }
    }
  }

  lemma LastJoinsRun(gap: seq<string>)
    requires |gap| > 1 && Head(gap[|gap| - 2]) == Head(gap[|gap| - 1])
    ensures Contiguous(gap) <==> Contiguous(gap[..|gap| - 1])
  {
  }

  // ── Sorted names ────────────────────────────────────────────────────────────

  lemma {:induction false} HeadExact(r: string)
    ensures '_' !in Head(r)
    ensures '_' !in r ==> Head(r) == r
    ensures '_' in r ==> StartsWith(r, Head(r) + "_")
  {
    if r == "" {
    } else {
      HeadExact(r[1..]);
      assert r == [r[0]] + r[1..];
      if r[0] != '_' && '_' in r {
        assert '_' in r[1..];
        var h := Head(r[1..]);
        assert Head(r) == [r[0]] + h;
        assert r[..|h| + 2] == [r[0]] + r[1..][..|h| + 1];
        assert [r[0]] + (h + "_") == ([r[0]] + h) + "_";
      }
    }
  }

  lemma {:induction false} HeadOf(r: string, p: string)
    requires '_' !in p
    ensures Head(r) == p <==> r == p || StartsWith(r, p + "_")
  {
    HeadExact(r);
    if StartsWith(r, p + "_") {
      assert r == p + ['_'] + r[|p| + 1..];
      SplitAtSeparator(p, '_', r[|p| + 1..], (x: char) => x == '_');
      SplitNone(p, (x: char) => x == '_');
    } else if r == p {
      SplitNone(p, (x: char) => x == '_');
    }
  }

  /** A bare name, a longer name that continues it with a character below `_`, and a name of the
      bare name's prefix: sorting puts the second between the other two. */
  ghost predicate Straddles(gap: seq<string>, bare: string, between: string, far: string) {
    && bare in gap && between in gap && far in gap
    && '_' !in bare
    && StartsWith(far, bare + "_")
    && StartsWith(between, bare) && |between| > |bare| && between[|bare|] < '_'
  }

  lemma UnderscoreNext(r: string, p: string)
    ensures StartsWith(r, p + "_") <==> StartsWith(r, p) && |r| > |p| && r[|p|] == '_'
  {
  }

  lemma StraddlingOrder(bare: string, between: string, far: string)
    requires '_' !in bare && StartsWith(far, bare + "_")
    requires StartsWith(between, bare) && |between| > |bare| && between[|bare|] < '_'
    ensures Less(bare, between) && Less(between, far)
    ensures Head(bare) == Head(far) == bare && Head(between) != bare
  {
    UnderscoreNext(far, bare);
    UnderscoreNext(between, bare);
    DecidedIsLess(bare, between, |bare|);
    DecidedIsLess(between, far, |bare|);
    HeadOf(bare, bare);
    HeadOf(far, bare);
    HeadOf(between, bare);
  }

  lemma SortedIndex(gap: seq<string>, i: nat, j: nat)
    requires StrictlySorted(gap) && i < |gap| && j < |gap| && Less(gap[i], gap[j])
    ensures i < j
  {
    if i == j { LessIrreflexive(gap[i]); }
    if j < i { LessAsymmetric(gap[i], gap[j]); }
  }

  lemma StraddledIsSplit(gap: seq<string>, bare: string, between: string, far: string)
    requires StrictlySorted(gap) && Straddles(gap, bare, between, far)
    ensures !Contiguous(gap)
  {
    StraddlingOrder(bare, between, far);
    var i :| 0 <= i < |gap| && gap[i] == bare;
    var j :| 0 <= j < |gap| && gap[j] == between;
    var k :| 0 <= k < |gap| && gap[k] == far;
    SortedIndex(gap, i, j);
    SortedIndex(gap, j, k);
    assert Head(gap[i]) == Head(gap[k]) && Head(gap[j]) != Head(gap[i]);
  }

  lemma {:induction false} PrefixIsLeast(p: string, x: string)
    requires StartsWith(x, p)
    ensures !Less(x, p)
  {
    if p == "" {
    } else {
      assert x[0] == x[..|p|][0] == p[0];
      assert x[1..][..|p| - 1] == x[..|p|][1..];
      PrefixIsLeast(p[1..], x[1..]);
    }
  }

  lemma {:induction false} NextCharacter(p: string, y: string, z: string)
    requires StartsWith(y, p) && StartsWith(z, p) && |y| > |p| && |z| > |p|
    requires Less(y, z)
    ensures y[|p|] <= z[|p|]
  {
    if p == "" {
    } else {
      assert y[0] == y[..|p|][0] == p[0] == z[..|p|][0] == z[0];
      assert y[1..][..|p| - 1] == y[..|p|][1..] && z[1..][..|p| - 1] == z[..|p|][1..];
      NextCharacter(p[1..], y[1..], z[1..]);
    }
  }

  /** Names of the form `p_...` form an interval, so only a bare name can be cut off from its prefix. */
  lemma SplitIsStraddled(gap: seq<string>, x: string, y: string, z: string)
    requires x in gap && y in gap && z in gap
    requires Less(x, y) && Less(y, z) && Head(x) == Head(z) && Head(y) != Head(x)
    ensures Straddles(gap, x, y, z)
  {
    var p := Head(x);
    HeadExact(x);
    forall r | r in [x, y, z] ensures Head(r) == p <==> r == p || StartsWith(r, p + "_") { HeadOf(r, p); }
    UnderscoreNext(x, p);
    UnderscoreNext(y, p);
    UnderscoreNext(z, p);
    LessTransitive(x, y, z);
    PrefixIsLeast(p, x);
    assert z != p;
    if x != p {
      PrefixInterval(p + "_", x, y, z);
    }
    PrefixInterval(p, x, y, z);
    assert |y| == |p| ==> y == p;
    NextCharacter(p, y, z);
  }

  /** For a sorted gap every prefix is headed once, with all its names beneath, exactly when no bare
      name is straddled. */
  lemma HeadingsExact(gap: seq<string>, tier1: seq<string>)
    requires StrictlySorted(gap)
    ensures Unique(HeadingsOf(Rendered(gap, tier1)))
            <==> !exists bare, between, far :: Straddles(gap, bare, between, far)
  {
    HeadingsAreRunHeads(gap, tier1);
    NoRepeatExact(gap);
    if bare, between, far :| Straddles(gap, bare, between, far) {
      StraddledIsSplit(gap, bare, between, far);
    }
    if !Contiguous(gap) {
      var i, j, k :| 0 <= i < j < k < |gap| && Head(gap[i]) == Head(gap[k]) && Head(gap[j]) != Head(gap[i]);
      SplitIsStraddled(gap, gap[i], gap[j], gap[k]);
    }
  }

  /** In particular when every name has an underscore. */
  lemma UnderscoredHeadings(gap: seq<string>, tier1: seq<string>)
    requires StrictlySorted(gap) && forall r | r in gap :: '_' in r
    ensures Unique(HeadingsOf(Rendered(gap, tier1)))
  {
    HeadingsExact(gap, tier1);
  }

  lemma StraddlingRepeats(bare: string, between: string, far: string, tier1: seq<string>)
    requires '_' !in bare && StartsWith(far, bare + "_")
    requires StartsWith(between, bare) && |between| > |bare| && between[|bare|] < '_'
    ensures StrictlySorted([bare, between, far])
    ensures !Unique(HeadingsOf(Rendered([bare, between, far], tier1)))
  {
    var gap := [bare, between, far];
    assert gap[0] == bare && gap[1] == between && gap[2] == far;
    StraddlingOrder(bare, between, far);
    LessTransitive(bare, between, far);
    StraddledIsSplit(gap, bare, between, far);
    HeadingsAreRunHeads(gap, tier1);
    NoRepeatExact(gap);
  }

  /** Increasing names that all belong in the gap are the gap of their own report. */
  lemma WholeGap(t: Tables, kinds: set<string>, names: seq<string>)
    requires StrictlySorted(names) && forall r | r in names :: InGap(t, kinds, r)
    ensures Gap(t, SortStrings(names), Covered(t, kinds, SortStrings(names))) == names
  {
    var covered := Covered(t, kinds, names);
    SortStringsFixed(names);
    forall r | r in names ensures GapTest(t, covered)(r) { CoveredExact(t, kinds, names, r); }
    FilterAll(names, ScopeTest(t));
    FilterAll(names, GapTest(t, covered));
  }

  const BARE := "inspector"
  const BETWEEN := "inspector2_x"
  const FAR := "inspector_y"

  lemma InspectorNames()
    ensures '_' !in BARE && StartsWith(FAR, BARE + "_")
    ensures StartsWith(BETWEEN, BARE) && |BETWEEN| > |BARE| && BETWEEN[|BARE|] < '_'
    ensures StartsWith(BETWEEN, "inspector2" + "_") && '_' !in "inspector2"
  {
  }

  lemma InspectorHeads()
    ensures Head(BARE) == Head(FAR) == "inspector" && Head(BETWEEN) == "inspector2"
  {
    InspectorNames();
    HeadOf(BARE, BARE);
    HeadOf(FAR, BARE);
    HeadOf(BETWEEN, "inspector2");
  }

  /** And not in general: the shipped scope holds both prefixes and the shipped parent table none of
      these names, so while no kind covers them the report heads `inspector` twice. */
  lemma RepeatedHeading(t: Tables, kinds: set<string>)
    requires "inspector" in t.scope && "inspector2" in t.scope
    requires forall r | r in [BARE, BETWEEN, FAR] :: r !in t.modelled && !IsCovered(t, kinds, r)
    ensures var names := SortStrings([BARE, BETWEEN, FAR]);
            var gap := Gap(t, names, Covered(t, kinds, names));
            && gap == [BARE, BETWEEN, FAR]
            && !Unique(HeadingsOf(Rendered(gap, Filter(gap, Tier1Test(t)))))
  {
    InspectorNames();
    InspectorHeads();
    StraddlingRepeats(BARE, BETWEEN, FAR, Filter([BARE, BETWEEN, FAR], Tier1Test(t)));
    WholeGap(t, kinds, [BARE, BETWEEN, FAR]);
  }

  // ── Items ───────────────────────────────────────────────────────────────────

  /** The heading in force at the end of the document. */
  function Current(doc: seq<Line>): Option<string> {
    if doc == [] then None
    else if doc[|doc| - 1].Heading? then Some(doc[|doc| - 1].prefix)
    else Current(doc[..|doc| - 1])
  }

  // An item as a reader finds it: under its heading, with its tier.
  datatype Entry = Entry(heading: Option<string>, name: string, tier1: bool)

  function EntriesOf(doc: seq<Line>): seq<Entry> {
    if doc == [] then []
    else
      var init, last := doc[..|doc| - 1], doc[|doc| - 1];
      EntriesOf(init) + if last.Item? then [Entry(Current(init), last.name, last.tier1)] else []
  }

  function Expected(gap: seq<string>, tier1: seq<string>): (r: seq<Entry>)
    ensures |r| == |gap|
    ensures forall i | 0 <= i < |gap| :: r[i] == Entry(Some(Head(gap[i])), gap[i], gap[i] in tier1)
  {
    if gap == [] then []
    else
      var n := |gap| - 1;
      Expected(gap[..n], tier1) + [Entry(Some(Head(gap[n])), gap[n], gap[n] in tier1)]
  }

  lemma AppendHeading(doc: seq<Line>, p: string)
    ensures EntriesOf(doc + [Heading(p)]) == EntriesOf(doc)
    ensures Current(doc + [Heading(p)]) == Some(p)
  {
    assert (doc + [Heading(p)])[..|doc|] == doc;
  }

  lemma AppendItem(doc: seq<Line>, name: string, tier1: bool)
    ensures EntriesOf(doc + [Item(name, tier1)]) == EntriesOf(doc) + [Entry(Current(doc), name, tier1)]
    ensures Current(doc + [Item(name, tier1)]) == Current(doc)
  {
    assert (doc + [Item(name, tier1)])[..|doc|] == doc;
  }

  lemma AppendName(doc: seq<Line>, starts: bool, p: string, name: string, tier1: bool)
    requires starts || Current(doc) == Some(p)
    ensures var longer := doc + (if starts then [Heading(p)] else []) + [Item(name, tier1)];
            && EntriesOf(longer) == EntriesOf(doc) + [Entry(Some(p), name, tier1)]
            && Current(longer) == Some(p)
  {
    if starts {
      AppendHeading(doc, p);
      AppendItem(doc + [Heading(p)], name, tier1);
    } else {
      assert doc + [] == doc;
      AppendItem(doc, name, tier1);
    }
  }

  lemma {:induction false} EntriesExpected(gap: seq<string>, tier1: seq<string>)
    ensures EntriesOf(Rendered(gap, tier1)) == Expected(gap, tier1)
    ensures gap != [] ==> Current(Rendered(gap, tier1)) == Some(Head(gap[|gap| - 1]))
  {
    if gap == [] {
    } else {
      var n := |gap| - 1;
      EntriesExpected(gap[..n], tier1);
      AppendName(Rendered(gap[..n], tier1), Starts(gap, n), Head(gap[n]), gap[n], gap[n] in tier1);
    }
  }

  /** Reading the document back gives the gap in order, each name under its own prefix and marked
      with its tier. */
  lemma EntriesExact(t: Tables, gap: seq<string>)
    ensures var entries := EntriesOf(Rendered(gap, Filter(gap, Tier1Test(t))));
            && |entries| == |gap|
            && forall i | 0 <= i < |gap| :: entries[i] == Entry(Some(Head(gap[i])), gap[i], Head(gap[i]) in t.tier1)
  {
    EntriesExpected(gap, Filter(gap, Tier1Test(t)));
    FilterMembers(gap, Tier1Test(t));
  }

  // ── The report's own gap ────────────────────────────────────────────────────

  lemma {:induction false} FilterSorted(xs: seq<string>, p: string -> bool)
    requires StrictlySorted(xs)
    ensures StrictlySorted(Filter(xs, p))
  {
    if xs == [] {
    } else {
      var init, last := xs[..|xs| - 1], xs[|xs| - 1];
      FilterSorted(init, p);
      FilterMembers(init, p);
      forall x | x in Filter(init, p) ensures Less(x, last) {
        var i :| 0 <= i < |init| && init[i] == x;
        assert xs[i] == x;
      }
    }
  }

  /** The report sorts the names before it selects from them, so its gap is sorted. */
  lemma GapSorted(t: Tables, names: seq<string>, covered: map<string, string>)
    requires Unique(names)
    ensures StrictlySorted(Gap(t, SortStrings(names), covered))
  {
    SortStringsExact(names);
    FilterSorted(SortStrings(names), ScopeTest(t));
    FilterSorted(InScope(t, SortStrings(names)), GapTest(t, covered));
  }
}
