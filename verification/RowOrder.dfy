/** The order of the rows of a field table. */
module RowOrder {
  import opened Options
  import opened Lexicographic
  import opened Sorting
  import opened Schemas
  import opened FieldTable

  function Components(path: Path): seq<string> {
    match path
    case Root => []
    case Below(parent, name, _) => Components(parent) + [name]
  }

  /** Component-wise order: a path comes before its extensions, siblings by name. */
  predicate Before(a: seq<string>, b: seq<string>) {
    b != [] && (a == [] || Less(a[0], b[0]) || (a[0] == b[0] && Before(a[1..], b[1..])))
  }

  lemma {:induction false} BeforeExtension(p: seq<string>, e: seq<string>)
    requires e != []
    ensures Before(p, p + e)
  {
    if p == [] {
      assert p + e == e;
    } else {
      assert (p + e)[1..] == p[1..] + e;
      BeforeExtension(p[1..], e);
    }
  }

  lemma {:induction false} BeforeSibling(p: seq<string>, x: string, u: seq<string>, y: string, w: seq<string>)
    requires Less(x, y)
    ensures Before(p + [x] + u, p + [y] + w)
  {
    if p == [] {
      assert p + [x] + u == [x] + u && p + [y] + w == [y] + w;
    } else {
      assert (p + [x] + u)[1..] == p[1..] + [x] + u && (p + [y] + w)[1..] == p[1..] + [y] + w;
      BeforeSibling(p[1..], x, u, y, w);
    }
  }

  lemma {:induction false} BeforeOneWay(a: seq<string>, b: seq<string>)
    ensures !(Before(a, b) && Before(b, a))
  {
    if a != [] && b != [] {
      if Less(a[0], b[0]) { LessAsymmetric(a[0], b[0]); }
      if Less(b[0], a[0]) { LessAsymmetric(b[0], a[0]); }
      BeforeOneWay(a[1..], b[1..]);
    }
  }

  predicate Descends(path: Path, top: Path) {
    path == top || (path.Below? && Descends(path.parent, top))
  }

  lemma {:induction false} UnderExtends(path: Path, top: Path) returns (e: seq<string>)
    requires Descends(path, top)
    ensures Components(path) == Components(top) + e
    ensures path != top ==> e != []
  {
    e := [];
    if path != top {
      var e' := UnderExtends(path.parent, top);
      e := e' + [path.name];
    }
  }

  lemma {:induction false} UnderTransitive(path: Path, mid: Path, top: Path)
    requires Descends(path, mid) && Descends(mid, top)
    ensures Descends(path, top)
  {
    if path != mid { UnderTransitive(path.parent, mid, top); }
  }

  lemma {:induction false} AtUnder(s: Schema, path: Path, required: bool, names: seq<string>)
    requires At(s, path, required, names).Some?
    ensures Descends(At(s, path, required, names).value.path, path)
    decreases |names|
  {
    if names == [] {
    } else {
      var c := ChildrenOf(s);
      var below := Below(path, names[0], c.inArray);
      AtUnder(Find(c.fields, names[0]).value, below, names[0] in c.required, names[1..]);
      UnderTransitive(At(s, path, required, names).value.path, below, path);
    }
  }

  lemma ListedUnder(s: Schema, path: Path, required: bool, depth: nat, p: Spot)
    requires Proper(s) && p in Listing(s, path, required, depth)
    ensures Descends(p.path, path)
  {
    var names := ListedAt(s, path, required, depth, p);
    AtUnder(s, path, required, names);
  }

  ghost predicate Increasing(ps: seq<Spot>) {
    forall i, j | 0 <= i < j < |ps| :: Before(Components(ps[i].path), Components(ps[j].path))
  }

  ghost predicate AllBefore(ps: seq<Spot>, qs: seq<Spot>) {
    forall p, q | p in ps && q in qs :: Before(Components(p.path), Components(q.path))
  }

  lemma IncreasingJoin(ps: seq<Spot>, qs: seq<Spot>)
    requires Increasing(ps) && Increasing(qs) && AllBefore(ps, qs)
    ensures Increasing(ps + qs)
  {
  }

  ghost predicate ByName(fields: seq<Field>) {
    forall i, j | 0 <= i < j < |fields| :: Less(fields[i].name, fields[j].name)
  }

  lemma SortedFieldsByName(fields: seq<Field>)
    requires Distinct(fields)
    ensures ByName(SortedFields(fields))
  {
    var r := SortedFields(fields);
    NameOrderLinear();
    SortSorts(fields, NameOrder);
    SortKeeps(fields, NameOrder);
    SortUnique(fields, NameOrder);
    forall i, j | 0 <= i < j < |r| ensures Less(r[i].name, r[j].name) {
      assert NameOrder(r[i], r[j]) && r[i] in fields && r[j] in fields;
      FindExact(fields, r[i].name);
    }
  }

  lemma NameOrderLinear()
    ensures Linear(NameOrder) && Transitive(NameOrder)
  {
    forall a: Field, b: Field ensures NameOrder(a, b) || NameOrder(b, a) {
      LessTotal(a.name, b.name);
    }
    forall a: Field, b: Field, c: Field | NameOrder(a, b) && NameOrder(b, c) ensures NameOrder(a, c) {
      if Less(a.name, b.name) && Less(b.name, c.name) { LessTransitive(a.name, b.name, c.name); }
    }
  }

  lemma DescendantAfter(s: Schema, path: Path, required: bool, depth: nat, name: string, inArray: bool, q: Spot)
    requires Proper(s) && q in Listing(s, Below(path, name, inArray), required, depth)
    ensures Before(Components(path), Components(q.path))
  {
    ListedUnder(s, Below(path, name, inArray), required, depth, q);
    var e := UnderExtends(q.path, Below(path, name, inArray));
    BeforeExtension(Components(path), [name] + e);
    assert Components(q.path) == Components(path) + ([name] + e);
  }

  lemma BelowAfter(s: Schema, path: Path, depth: nat, own: Spot)
    requires Proper(s) && depth < ROW_DEPTH && ChildrenOf(s).Children? && own.path == path
    ensures var c := ChildrenOf(s);
            AllBefore([own], ListingOfFields(SortedFields(c.fields), c.required, c.inArray, path, depth))
  {
    var c := ChildrenOf(s);
    forall q | q in ListingOfFields(SortedFields(c.fields), c.required, c.inArray, path, depth)
      ensures Before(Components(path), Components(q.path))
    {
      var f := ListedField(SortedFields(c.fields), c.required, c.inArray, path, depth, q);
      ChildSorted(s, f);
      DescendantAfter(f.schema, path, f.name in c.required, depth + 1, f.name, c.inArray, q);
    }
  }

  lemma SiblingAfter(fields: seq<Field>, required: seq<string>, inArray: bool, path: Path, depth: nat, f: Field)
    requires depth < ROW_DEPTH && Proper(f.schema)
    requires forall g | g in fields :: Proper(g.schema) && Less(g.name, f.name)
    ensures AllBefore(ListingOfFields(fields, required, inArray, path, depth),
                      Listing(f.schema, Below(path, f.name, inArray), f.name in required, depth + 1))
  {
    forall p, q | p in ListingOfFields(fields, required, inArray, path, depth)
                  && q in Listing(f.schema, Below(path, f.name, inArray), f.name in required, depth + 1)
      ensures Before(Components(p.path), Components(q.path))
    {
      var g := ListedField(fields, required, inArray, path, depth, p);
      ListedUnder(g.schema, Below(path, g.name, inArray), g.name in required, depth + 1, p);
      ListedUnder(f.schema, Below(path, f.name, inArray), f.name in required, depth + 1, q);
      var u := UnderExtends(p.path, Below(path, g.name, inArray));
      var w := UnderExtends(q.path, Below(path, f.name, inArray));
      BeforeSibling(Components(path), g.name, u, f.name, w);
    }
  }

  lemma {:induction false} ListingIncreasing(s: Schema, path: Path, required: bool, depth: nat)
    requires Proper(s)
    ensures Increasing(Listing(s, path, required, depth))
    decreases ROW_DEPTH - depth, 1, 0
  {
    var c := ChildrenOf(s);
    if depth < ROW_DEPTH && c.Children? {
      SortedFieldsByName(c.fields);
      forall f | f in SortedFields(c.fields) ensures Proper(f.schema) { ChildSorted(s, f); }
      ListingOfFieldsIncreasing(SortedFields(c.fields), c.required, c.inArray, path, depth);
      BelowAfter(s, path, depth, Spot(path, s, required));
      IncreasingJoin(Own(s, path, required), ListingOfFields(SortedFields(c.fields), c.required, c.inArray, path, depth));
    }
  }

  lemma {:induction false} ListingOfFieldsIncreasing(fields: seq<Field>, required: seq<string>, inArray: bool, path: Path, depth: nat)
    requires depth < ROW_DEPTH && ByName(fields) && forall f | f in fields :: Proper(f.schema)
    ensures Increasing(ListingOfFields(fields, required, inArray, path, depth))
    decreases ROW_DEPTH - depth, 0, |fields|
  {
    if fields == [] {
    } else {
      var init, f := fields[..|fields| - 1], fields[|fields| - 1];
      ListingOfFieldsIncreasing(init, required, inArray, path, depth);
      ListingIncreasing(f.schema, Below(path, f.name, inArray), f.name in required, depth + 1);
      SiblingAfter(init, required, inArray, path, depth, f);
      IncreasingJoin(ListingOfFields(init, required, inArray, path, depth),
                     Listing(f.schema, Below(path, f.name, inArray), f.name in required, depth + 1));
    }
  }

  lemma {:induction false} AtParent(s: Schema, path: Path, required: bool, names: seq<string>) returns (up: Spot)
    requires names != [] && At(s, path, required, names).Some?
    ensures At(s, path, required, names[..|names| - 1]) == Some(up)
    ensures At(s, path, required, names).value.path.Below? && up.path == At(s, path, required, names).value.path.parent
    decreases |names|
  {
    if |names| == 1 {
      up := Spot(path, s, required);
    } else {
      var c := ChildrenOf(s);
      up := AtParent(Find(c.fields, names[0]).value, Below(path, names[0], c.inArray), names[0] in c.required, names[1..]);
      assert names[..|names| - 1][1..] == names[1..][..|names| - 2];
    }
  }

  lemma ParentListed(s: Schema, p: Spot) returns (up: Spot)
    requires Proper(s) && p in Listing(s, Root, true, 0)
    ensures p.path.Below? && up.path == p.path.parent
    ensures p.path.parent != Root ==> up in Listing(s, Root, true, 0)
  {
    ListingExact(s, p);
    var names: seq<string> :| 1 <= |names| <= 6 && At(s, Root, true, names) == Some(p);
    up := AtParent(s, Root, true, names);
    if p.path.parent != Root {
      assert |names| > 1;
      ListingExact(s, up);
    }
  }

  /** Rows come in strictly increasing order of their component paths, so no node is listed twice,
      and the row of a node's parent comes earlier. */
  lemma ListedOnceParentFirst(s: Schema)
    requires Proper(s)
    ensures var ps := Listing(s, Root, true, 0);
            && Increasing(ps)
            && (forall i, j | 0 <= i < j < |ps| :: Components(ps[i].path) != Components(ps[j].path))
            && (forall j | 0 <= j < |ps| ::
                  ps[j].path.Below? && (ps[j].path.parent == Root || exists i :: 0 <= i < j && ps[i].path == ps[j].path.parent))
  {
    var ps := Listing(s, Root, true, 0);
    ListingIncreasing(s, Root, true, 0);
    forall i, j | 0 <= i < j < |ps| ensures Components(ps[i].path) != Components(ps[j].path) {
      BeforeOneWay(Components(ps[i].path), Components(ps[j].path));
    }
    forall j | 0 <= j < |ps|
      ensures ps[j].path.Below? && (ps[j].path.parent == Root || exists i :: 0 <= i < j && ps[i].path == ps[j].path.parent)
    {
      var up := ParentListed(s, ps[j]);
      if ps[j].path.parent != Root {
        EarlierParent(ps, up, j);
      }
    }
  }

  lemma EarlierParent(ps: seq<Spot>, up: Spot, j: nat)
    requires Increasing(ps) && up in ps && j < |ps|
    requires ps[j].path.Below? && up.path == ps[j].path.parent
    ensures exists i :: 0 <= i < j && ps[i].path == ps[j].path.parent
  {
    var i :| 0 <= i < |ps| && ps[i] == up;
    BeforeExtension(Components(up.path), [ps[j].path.name]);
    if i >= j {
      BeforeOneWay(Components(up.path), Components(ps[j].path));
    }
  }
}
