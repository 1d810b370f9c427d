/** Grouping the CRDs by service, and the pages that count and rank them. */
module Catalogue {
  import opened Options
  import opened Lexicographic
  import opened Sorting
  import opened SortedStrings
  import opened Groups
  import opened Lists

  const OTHER := "other"
  const GRID_SIZE: nat := 19

  // What grouping reads of a CRD entry.
  datatype Crd = Crd(kind: string, ccService: Option<string>)

  // The services found in the controllers, by lower-cased kind; `lower` is `str.lower` and `title`
  // the lower-cased page label of a service.
  datatype Context = Context(controllers: map<string, string>, lower: string -> string, title: string -> string)

  predicate Known(o: Option<string>) {
    o.Some? && o.value != ""
  }

  function Mapped(ctx: Context, crd: Crd): Option<string> {
    if Known(crd.ccService) then crd.ccService
    else if ctx.lower(crd.kind) in ctx.controllers then Some(ctx.controllers[ctx.lower(crd.kind)])
    else None
  }

  function Service(ctx: Context, crd: Crd): string {
    if Known(Mapped(ctx, crd)) then Mapped(ctx, crd).value else OTHER
  }

  function Filed(ctx: Context, crds: seq<Crd>): (r: seq<(string, Crd)>)
    ensures |r| == |crds| && forall i | 0 <= i < |crds| :: r[i] == (Service(ctx, crds[i]), crds[i])
  {
    seq(|crds|, i requires 0 <= i < |crds| => (Service(ctx, crds[i]), crds[i]))
  }

  function Unmapped(ctx: Context, crds: seq<Crd>): seq<string> {
    if crds == [] then []
    else
      var last := crds[|crds| - 1];
      Unmapped(ctx, crds[..|crds| - 1]) + if Known(Mapped(ctx, last)) then [] else [last.kind]
  }

  function KindsOf(crds: seq<Crd>): seq<string> {
    if crds == [] then [] else KindsOf(crds[..|crds| - 1]) + [crds[|crds| - 1].kind]
  }

  predicate KindOrder(a: Crd, b: Crd) {
    AtMost(a.kind, b.kind)
  }

  function KindSorted(gs: seq<Group<Crd>>): (r: seq<Group<Crd>>)
    ensures |r| == |gs|
    ensures forall i | 0 <= i < |gs| :: r[i] == Group(gs[i].key, Sort(gs[i].items, KindOrder))
  {
    seq(|gs|, i requires 0 <= i < |gs| => Group(gs[i].key, Sort(gs[i].items, KindOrder)))
  }

  function LabelOrder(ctx: Context): (Group<Crd>, Group<Crd>) -> bool {
    (g: Group<Crd>, h: Group<Crd>) => AtMost(ctx.title(g.key), ctx.title(h.key))
  }

  function ByLabel(ctx: Context, gs: seq<Group<Crd>>): seq<Group<Crd>> {
    Sort(gs, LabelOrder(ctx))
  }

  /** The services ranked by number of kinds, cut to the grid. */
  function Top(gs: seq<Group<Crd>>): seq<Group<Crd>> {
    var ranked := Sort(gs, BySize);
    if |ranked| > GRID_SIZE then ranked[..GRID_SIZE] else ranked
  }

  datatype Card = Card(service: string, kinds: nat)

  function Cards(gs: seq<Group<Crd>>): (r: seq<Card>)
    ensures |r| == |gs| && forall i | 0 <= i < |gs| :: r[i] == Card(gs[i].key, |gs[i].items|)
  {
    seq(|gs|, i requires 0 <= i < |gs| => Card(gs[i].key, |gs[i].items|))
  }

  class Site {
    var services: seq<Group<Crd>>
    var unmapped: seq<string>

    constructor ()
      ensures services == [] && unmapped == []
    {
      services, unmapped := [], [];
    }

    /** The loop over the CRDs. */
    method File(ctx: Context, crds: seq<Crd>)
      requires services == [] && unmapped == []
      modifies this
      ensures services == Grouped(Filed(ctx, crds))
      ensures unmapped == Unmapped(ctx, crds)
      ensures forall service :: Lookup(services, service) == Filter(crds, Home(ctx, service))
      ensures unmapped == KindsOf(Filter(crds, Stray(ctx)))
    {
      for i := 0 to |crds|
        invariant services == Grouped(Filed(ctx, crds[..i]))
        invariant unmapped == Unmapped(ctx, crds[..i])
      {
        FiledStep(ctx, crds, i);
        var svc := Mapped(ctx, crds[i]);
        if !Known(svc) {
          unmapped := unmapped + [crds[i].kind];
          svc := Some(OTHER);
        }
        services := Place(services, svc.value, crds[i]);
      }
      assert crds[..|crds|] == crds;
      FilingExact(ctx, crds);
    }

    /** Each list is sorted by kind in place. */
    method SortKinds()
      modifies this`services
      ensures services == KindSorted(old(services))
    {
      for i := 0 to |services|
        invariant |services| == |old(services)|
        invariant forall j | 0 <= j < i :: services[j] == Group(old(services)[j].key, Sort(old(services)[j].items, KindOrder))
        invariant forall j | i <= j < |services| :: services[j] == old(services)[j]
      {
        services := services[i := Group(services[i].key, Sort(services[i].items, KindOrder))];
      }
    }

    /** The kinds listed in the sidebar, service by service. */
    method Sidebar(ctx: Context) returns (items: seq<Crd>)
      ensures items == AllItems(ByLabel(ctx, services))
    {
      var groups := ByLabel(ctx, services);
      items := [];
      for i := 0 to |groups|
        invariant items + AllItems(groups[i..]) == AllItems(groups)
      {
        assert groups[i..][1..] == groups[i + 1..];
        items := items + groups[i].items;
      }
    }

    /** The landing page: the top services by label, then one card for all kinds. */
    method Grid(ctx: Context) returns (cards: seq<Card>, all: nat)
      ensures cards == Cards(ByLabel(ctx, Top(services)))
      ensures all == Total(services)
    {
      var ranked := ByLabel(ctx, Top(services));
      cards := [];
      for i := 0 to |ranked|
        invariant cards == Cards(ranked[..i])
      {
        cards := cards + [Card(ranked[i].key, |ranked[i].items|)];
      }
      assert ranked[..|ranked|] == ranked;
      all := Total(services);
    }
  }

  lemma FiledStep(ctx: Context, crds: seq<Crd>, i: nat)
    requires i < |crds|
    ensures Grouped(Filed(ctx, crds[..i + 1])) == Place(Grouped(Filed(ctx, crds[..i])), Service(ctx, crds[i]), crds[i])
    ensures Unmapped(ctx, crds[..i + 1])
            == Unmapped(ctx, crds[..i]) + if Known(Mapped(ctx, crds[i])) then [] else [crds[i].kind]
  {
    assert crds[..i + 1][..i] == crds[..i];
    var filed := Filed(ctx, crds[..i + 1]);
    assert filed[..|filed| - 1] == Filed(ctx, crds[..i]);
  }

  // ── Where a CRD is filed ────────────────────────────────────────────────────

  predicate HasOwn(crd: Crd) {
    crd.ccService.Some? && crd.ccService.value != ""
  }

  predicate HasController(ctx: Context, crd: Crd) {
    ctx.lower(crd.kind) in ctx.controllers && ctx.controllers[ctx.lower(crd.kind)] != ""
  }

  /** A CRD belongs to the service it names; else to that of its kind's controller; else to none. */
  predicate BelongsTo(ctx: Context, crd: Crd, service: string) {
    && (HasOwn(crd) ==> service == crd.ccService.value)
    && (!HasOwn(crd) && HasController(ctx, crd) ==> service == ctx.controllers[ctx.lower(crd.kind)])
    && (!HasOwn(crd) && !HasController(ctx, crd) ==> service == "other")
  }

  function Home(ctx: Context, service: string): Crd -> bool {
    (crd: Crd) => BelongsTo(ctx, crd, service)
  }

  function Stray(ctx: Context): Crd -> bool {
    (crd: Crd) => !HasOwn(crd) && !HasController(ctx, crd)
  }

  lemma {:induction false} FiledUnder(ctx: Context, crds: seq<Crd>, service: string)
    ensures Under(Filed(ctx, crds), service) == Filter(crds, Home(ctx, service))
  {
    if crds == [] {
    } else {
      var init := crds[..|crds| - 1];
      FiledUnder(ctx, init, service);
      assert Filed(ctx, crds)[..|crds| - 1] == Filed(ctx, init);
    }
  }

  lemma {:induction false} UnmappedExact(ctx: Context, crds: seq<Crd>)
    ensures Unmapped(ctx, crds) == KindsOf(Filter(crds, Stray(ctx)))
  {
    if crds == [] {
    } else {
      var init, last := crds[..|crds| - 1], crds[|crds| - 1];
      UnmappedExact(ctx, init);
      var strays := Filter(init, Stray(ctx));
      assert Stray(ctx)(last) <==> !Known(Mapped(ctx, last));
      if Stray(ctx)(last) {
        assert (strays + [last])[..|strays|] == strays;
        assert KindsOf(strays + [last]) == KindsOf(strays) + [last.kind];
      } else {
        assert strays + [] == strays;
      }
    }
  }

  /** The list of a service holds exactly the CRDs that belong to it, in order, and the kinds reported
      as unmapped are exactly those that belong to none. */
  lemma FilingExact(ctx: Context, crds: seq<Crd>)
    ensures forall service :: Lookup(Grouped(Filed(ctx, crds)), service) == Filter(crds, Home(ctx, service))
    ensures Unmapped(ctx, crds) == KindsOf(Filter(crds, Stray(ctx)))
  {
    GroupedExact(Filed(ctx, crds));
    forall service ensures Lookup(Grouped(Filed(ctx, crds)), service) == Filter(crds, Home(ctx, service)) {
      FiledUnder(ctx, crds, service);
    }
    UnmappedExact(ctx, crds);
  }

  // ── Order ───────────────────────────────────────────────────────────────────

  lemma KindOrderLinear()
    ensures Linear(KindOrder) && Transitive(KindOrder)
  {
    AtMostLinear();
    forall a, b ensures KindOrder(a, b) || KindOrder(b, a) { LessTotal(a.kind, b.kind); }
    forall a, b, c | KindOrder(a, b) && KindOrder(b, c) ensures KindOrder(a, c) {
      assert AtMost(a.kind, b.kind) && AtMost(b.kind, c.kind);
    }
  }

  lemma LabelOrderLinear(ctx: Context)
    ensures Linear(LabelOrder(ctx)) && Transitive(LabelOrder(ctx))
  {
    AtMostLinear();
    forall g, h ensures LabelOrder(ctx)(g, h) || LabelOrder(ctx)(h, g) {
      LessTotal(ctx.title(g.key), ctx.title(h.key));
    }
    forall g, h, k | LabelOrder(ctx)(g, h) && LabelOrder(ctx)(h, k) ensures LabelOrder(ctx)(g, k) {
      assert AtMost(ctx.title(g.key), ctx.title(h.key)) && AtMost(ctx.title(h.key), ctx.title(k.key));
    }
  }

  /** After sorting, each service keeps its CRDs, in increasing order of kind. */
  lemma KindsInOrder(gs: seq<Group<Crd>>, i: nat)
    requires i < |gs|
    ensures KindSorted(gs)[i].key == gs[i].key
    ensures multiset(KindSorted(gs)[i].items) == multiset(gs[i].items)
    ensures forall j, k | 0 <= j < k < |KindSorted(gs)[i].items| ::
              !Less(KindSorted(gs)[i].items[k].kind, KindSorted(gs)[i].items[j].kind)
  {
    KindOrderLinear();
    SortKeeps(gs[i].items, KindOrder);
    SortSorts(gs[i].items, KindOrder);
    var items := KindSorted(gs)[i].items;
    forall j, k | 0 <= j < k < |items| ensures !Less(items[k].kind, items[j].kind) {
      assert KindOrder(items[j], items[k]);
      NotBefore(items[j].kind, items[k].kind);
    }
  }

  lemma NotBefore(a: string, b: string)
    requires AtMost(a, b)
    ensures !Less(b, a)
  {
    LessIrreflexive(a);
    if Less(a, b) { LessAsymmetric(a, b); }
  }

  /** Sidebar groups and grid cards come in increasing order of label, and services with the same
      label keep their order. */
  lemma LabelsInOrder(ctx: Context, gs: seq<Group<Crd>>, caption: string)
    ensures forall i, j | 0 <= i < j < |ByLabel(ctx, gs)| ::
              !Less(ctx.title(ByLabel(ctx, gs)[j].key), ctx.title(ByLabel(ctx, gs)[i].key))
    ensures Filter(ByLabel(ctx, gs), Labelled(ctx, caption)) == Filter(gs, Labelled(ctx, caption))
  {
    LabelOrderLinear(ctx);
    SortSorts(gs, LabelOrder(ctx));
    var r := ByLabel(ctx, gs);
    forall i, j | 0 <= i < j < |r| ensures !Less(ctx.title(r[j].key), ctx.title(r[i].key)) {
      assert LabelOrder(ctx)(r[i], r[j]);
      NotBefore(ctx.title(r[i].key), ctx.title(r[j].key));
    }
    SortStable(gs, LabelOrder(ctx), Labelled(ctx, caption));
  }

  function Labelled(ctx: Context, caption: string): Group<Crd> -> bool {
    (g: Group<Crd>) => ctx.title(g.key) == caption
  }

  function OfSize(n: nat): Group<Crd> -> bool {
    (g: Group<Crd>) => |g.items| == n
  }

  /** Services with equally many kinds are ranked in the order in which they were first used, so this
      order decides which of them the grid still shows. */
  lemma TiesInOrder(gs: seq<Group<Crd>>, n: nat)
    ensures Filter(Sort(gs, BySize), OfSize(n)) == Filter(gs, OfSize(n))
    ensures Top(gs) <= Sort(gs, BySize)
  {
    SortStable(gs, BySize, OfSize(n));
  }

  // ── Conservation ────────────────────────────────────────────────────────────

  lemma FiledItems(ctx: Context, crds: seq<Crd>)
    ensures multiset(AllItems(Grouped(Filed(ctx, crds)))) == multiset(crds)
    ensures Total(Grouped(Filed(ctx, crds))) == |crds|
  {
    GroupedExact(Filed(ctx, crds));
    GroupedItems(Filed(ctx, crds));
    assert Seconds(Filed(ctx, crds)) == crds;
  }

  lemma {:induction false} KindSortedItems(gs: seq<Group<Crd>>)
    ensures multiset(AllItems(KindSorted(gs))) == multiset(AllItems(gs))
    ensures Total(KindSorted(gs)) == Total(gs)
  {
    if gs == [] {
    } else {
      KindSortedItems(gs[1..]);
      SortKeeps(gs[0].items, KindOrder);
      assert KindSorted(gs)[1..] == KindSorted(gs[1..]);
    }
  }

  /** Every CRD is listed in the sidebar exactly once, and the totals of the overview, the sidebar
      and the landing page are the number of CRDs. */
  lemma CatalogueConserved(ctx: Context, crds: seq<Crd>)
    ensures var services := KindSorted(Grouped(Filed(ctx, crds)));
            && Total(services) == |crds|
            && multiset(AllItems(ByLabel(ctx, services))) == multiset(crds)
            && |AllItems(ByLabel(ctx, services))| == |crds|
  {
    var services := KindSorted(Grouped(Filed(ctx, crds)));
    FiledItems(ctx, crds);
    KindSortedItems(Grouped(Filed(ctx, crds)));
    SortItems(services, LabelOrder(ctx));
    assert |AllItems(ByLabel(ctx, services))| == |multiset(AllItems(ByLabel(ctx, services)))|;
  }

  lemma RankedAbove(ranked: seq<Group<Crd>>, n: nat, g: Group<Crd>, h: Group<Crd>)
    requires n <= |ranked| && Sorted(ranked, BySize)
    requires g in ranked[..n] && h in ranked && h !in ranked[..n]
    ensures |g.items| >= |h.items|
  {
  }

  lemma SortMember(gs: seq<Group<Crd>>, leq: (Group<Crd>, Group<Crd>) -> bool, g: Group<Crd>)
    ensures g in Sort(gs, leq) <==> g in gs
  {
    SortKeeps(gs, leq);
  }

  /** The grid shows nineteen services, or all if there are fewer. */
  lemma TopSize(ctx: Context, gs: seq<Group<Crd>>)
    ensures |ByLabel(ctx, Top(gs))| == if |gs| < 19 then |gs| else 19
  {
    SortKeeps(gs, BySize);
    SortKeeps(Top(gs), LabelOrder(ctx));
  }

  /** No service on the grid has fewer kinds than a service left out. */
  lemma TopExact(ctx: Context, gs: seq<Group<Crd>>, g: Group<Crd>, h: Group<Crd>)
    requires g in ByLabel(ctx, Top(gs)) && h in gs && h !in ByLabel(ctx, Top(gs))
    ensures g in gs && |g.items| >= |h.items|
  {
    SortMember(Top(gs), LabelOrder(ctx), g);
    SortMember(Top(gs), LabelOrder(ctx), h);
    SortMember(gs, BySize, g);
    SortMember(gs, BySize, h);
    SortSorts(gs, BySize);
    RankedAbove(Sort(gs, BySize), |Top(gs)|, g, h);
  }
}
