/** `flatten`: the field table of a schema, one row per node down to six property steps. */
module FieldTable {
  import opened Options
  import opened Text
  import opened Lexicographic
  import opened Sorting
  import opened Schemas

  const ROW_DEPTH: nat := 6

  datatype TypeCell = Plain(ty: TypeName) | ArrayOf(ty: TypeName) | MapOfString | Enumerated

  // The description cell: the first sentence and the values listed after it.
  datatype Note = Note(summary: string, allowed: seq<Json>, more: bool)

  datatype Row = Row(path: string, cell: TypeCell, required: bool, note: Note)

  // The shared Python list that the recursion appends to.
  class RowList {
    var rows: seq<Row>

    constructor ()
      ensures rows == []
    {
      rows := [];
    }

    method Append(row: Row)
      modifies this
      ensures rows == old(rows) + [row]
    {
      rows := rows + [row];
    }
  }

  // ── One node ────────────────────────────────────────────────────────────────

  /** `prop.get("type", "object")` */
  function TypeOf(s: Schema): TypeName {
    if s.ty == Missing then Obj else s.ty
  }

  function CellOf(s: Schema): TypeCell {
    if s.choices.Some? then Enumerated
    else if TypeOf(s) == Obj && s.extra != NoExtra && s.table.NoTable? then MapOfString
    else if TypeOf(s) == Arr then ArrayOf(if s.items.Items? then TypeOf(s.items.schema) else Obj)
    else Plain(TypeOf(s))
  }

  function NoteOf(s: Schema): Note {
    if s.choices.Some? then
      Note(s.summary, if |s.choices.value| > 8 then s.choices.value[..8] else s.choices.value, |s.choices.value| > 8)
    else Note(s.summary, [], false)
  }

  // The children of a node: the fields of an object, or of the items of an array of objects.
  datatype Children = Leaf | Children(fields: seq<Field>, required: seq<string>, inArray: bool)

  function ChildrenOf(s: Schema): Children {
    if TypeOf(s) == Obj && s.table.Table? then Children(s.table.fields, s.required, false)
    else if TypeOf(s) == Arr && s.items.Items? && s.items.schema.ty == Obj && s.items.schema.table.Table? then
      Children(s.items.schema.table.fields, s.items.schema.required, true)
    else Leaf
  }

  predicate NameOrder(f: Field, g: Field) {
    AtMost(f.name, g.name)
  }

  /** `sorted(properties.items())`: names are distinct, so the schemas are never compared. */
  function SortedFields(fields: seq<Field>): seq<Field> {
    Sort(fields, NameOrder)
  }

  // ── Rows with printed paths, as the script builds them ──────────────────────

  function Extend(prefix: string, name: string, inArray: bool): string {
    if inArray then prefix + "[]." + name
    else if prefix != "" then prefix + "." + name
    else name
  }

  /** The list after the recursion has appended to `rows`. */
  function Appended(rows: seq<Row>, s: Schema, prefix: string, required: bool, depth: nat): seq<Row>
    decreases ROW_DEPTH - depth, 1, 0
  {
    var own := if prefix != "" then rows + [Row(prefix, CellOf(s), required, NoteOf(s))] else rows;
    if depth >= ROW_DEPTH || ChildrenOf(s).Leaf? then own
    else
      var c := ChildrenOf(s);
      AppendedFields(own, SortedFields(c.fields), c.required, c.inArray, prefix, depth)
  }

  function AppendedFields(rows: seq<Row>, fields: seq<Field>, required: seq<string>, inArray: bool, prefix: string, depth: nat): seq<Row>
    requires depth < ROW_DEPTH
    decreases ROW_DEPTH - depth, 0, |fields|
  {
    if fields == [] then rows
    else
      var f := fields[|fields| - 1];
      Appended(AppendedFields(rows, fields[..|fields| - 1], required, inArray, prefix, depth),
               f.schema, Extend(prefix, f.name, inArray), f.name in required, depth + 1)
  }

  method Flatten(s: Schema, prefix: string, required: bool, list: RowList, depth: nat)
    modifies list
    ensures list.rows == Appended(old(list.rows), s, prefix, required, depth)
    decreases ROW_DEPTH - depth, 1
  {
    if prefix != "" {
      list.Append(Row(prefix, CellOf(s), required, NoteOf(s)));
    }
    if depth >= ROW_DEPTH {
      return;
    }
    if TypeOf(s) == Obj && s.table.Table? {
      FlattenFields(SortedFields(s.table.fields), s.required, false, prefix, list, depth);
    }
    if TypeOf(s) == Arr && s.items.Items? && s.items.schema.ty == Obj && s.items.schema.table.Table? {
      FlattenFields(SortedFields(s.items.schema.table.fields), s.items.schema.required, true, prefix, list, depth);
    }
  }

  /** The loop over the sorted children, the same below objects and below arrays of objects. */
  method FlattenFields(fields: seq<Field>, required: seq<string>, inArray: bool, prefix: string, list: RowList, depth: nat)
    requires depth < ROW_DEPTH
    modifies list
    ensures list.rows == AppendedFields(old(list.rows), fields, required, inArray, prefix, depth)
    decreases ROW_DEPTH - depth, 0
  {
    for i := 0 to |fields|
      invariant list.rows == AppendedFields(old(list.rows), fields[..i], required, inArray, prefix, depth)
    {
      assert fields[..i + 1][..i] == fields[..i];
      var f := fields[i];
      Flatten(f.schema, Extend(prefix, f.name, inArray), f.name in required, list, depth + 1);
    }
    assert fields[..|fields|] == fields;
  }

  // ── Rows by component path ──────────────────────────────────────────────────

  // The property steps from the root; `inArray` says that the last one starts at an array's items.
  datatype Path = Root | Below(parent: Path, name: string, inArray: bool)

  // A schema node with its path and its required flag.
  datatype Spot = Spot(path: Path, schema: Schema, required: bool)

  function Own(s: Schema, path: Path, required: bool): seq<Spot> {
    if path != Root then [Spot(path, s, required)] else []
  }

  /** The nodes at or below `s`, which stands at `path`, with at most ROW_DEPTH - depth more steps. */
  function Listing(s: Schema, path: Path, required: bool, depth: nat): seq<Spot>
    decreases ROW_DEPTH - depth, 1, 0
  {
    Own(s, path, required)
    + if depth >= ROW_DEPTH || ChildrenOf(s).Leaf? then []
      else
        var c := ChildrenOf(s);
        ListingOfFields(SortedFields(c.fields), c.required, c.inArray, path, depth)
  }

  function ListingOfFields(fields: seq<Field>, required: seq<string>, inArray: bool, path: Path, depth: nat): seq<Spot>
    requires depth < ROW_DEPTH
    decreases ROW_DEPTH - depth, 0, |fields|
  {
    if fields == [] then []
    else
      var f := fields[|fields| - 1];
      ListingOfFields(fields[..|fields| - 1], required, inArray, path, depth)
      + Listing(f.schema, Below(path, f.name, inArray), f.name in required, depth + 1)
  }

  function PathText(path: Path): string {
    match path
    case Root => ""
    case Below(parent, name, inArray) => Extend(PathText(parent), name, inArray)
  }

  function RowOf(p: Spot): Row {
    Row(PathText(p.path), CellOf(p.schema), p.required, NoteOf(p.schema))
  }

  function RowsOf(ps: seq<Spot>): (r: seq<Row>)
    ensures |r| == |ps|
    ensures forall i | 0 <= i < |ps| :: r[i] == RowOf(ps[i])
  {
    seq(|ps|, i requires 0 <= i < |ps| => RowOf(ps[i]))
  }

  /** Every property of the schema has a name. */
  ghost predicate Named(s: Schema) {
    && (s.items.Items? ==> Named(s.items.schema))
    && (s.table.Table? ==> forall f | f in s.table.fields :: f.name != "" && Named(f.schema))
  }

  ghost predicate NamedPath(path: Path) {
    path.Below? ==> path.name != "" && NamedPath(path.parent)
  }

  // ── Children in sorted order ────────────────────────────────────────────────

  lemma ChildFound(s: Schema, name: string)
    requires Proper(s) && ChildrenOf(s).Children?
    requires Find(ChildrenOf(s).fields, name).Some?
    ensures Field(name, Find(ChildrenOf(s).fields, name).value) in SortedFields(ChildrenOf(s).fields)
    ensures Proper(Find(ChildrenOf(s).fields, name).value)
  {
    FindExact(ChildrenOf(s).fields, name);
    SortKeeps(ChildrenOf(s).fields, NameOrder);
  }

  lemma ChildSorted(s: Schema, f: Field)
    requires Proper(s) && ChildrenOf(s).Children?
    requires f in SortedFields(ChildrenOf(s).fields)
    ensures Find(ChildrenOf(s).fields, f.name) == Some(f.schema)
    ensures Proper(f.schema)
  {
    SortKeeps(ChildrenOf(s).fields, NameOrder);
    FindExact(ChildrenOf(s).fields, f.name);
  }

  lemma ChildrenNamed(s: Schema)
    requires Named(s) && ChildrenOf(s).Children?
    ensures forall f | f in SortedFields(ChildrenOf(s).fields) :: f.name != "" && Named(f.schema)
  {
    SortKeeps(ChildrenOf(s).fields, NameOrder);
  }

  /** What a row says of its node: at most eight of the allowed values, with an ellipsis if there are
      more, and a type that `enum` overrides. */
  lemma RowExact(p: Spot)
    ensures var s, row := p.schema, RowOf(p);
            && row.required == p.required && row.note.summary == s.summary
            && (s.choices.None? ==> row.note.allowed == [] && !row.note.more)
            && (s.choices.Some? ==>
                  && row.note.allowed <= s.choices.value
                  && (row.note.more <==> |s.choices.value| > 8)
                  && |row.note.allowed| == if row.note.more then 8 else |s.choices.value|)
            && (row.cell == Enumerated <==> s.choices.Some?)
            && (row.cell == MapOfString <==>
                  s.choices.None? && (s.ty == Obj || s.ty == Missing) && s.extra != NoExtra && s.table.NoTable?)
            && (row.cell.ArrayOf? <==> s.choices.None? && s.ty == Arr)
            && (row.cell.ArrayOf? ==>
                  row.cell.ty == if s.items.Items? && s.items.schema.ty != Missing then s.items.schema.ty else Obj)
            && (row.cell.Plain? ==> row.cell.ty == if s.ty == Missing then Obj else s.ty)
  {
  }

  // ── The method appends the listing ──────────────────────────────────────────

  lemma RowsJoin(rows: seq<Row>, a: seq<Spot>, b: seq<Spot>)
    ensures rows + RowsOf(a) + RowsOf(b) == rows + RowsOf(a + b)
  {
  }

  lemma OwnRow(rows: seq<Row>, s: Schema, path: Path, required: bool)
    requires NamedPath(path)
    ensures rows + RowsOf(Own(s, path, required))
            == if PathText(path) != "" then rows + [Row(PathText(path), CellOf(s), required, NoteOf(s))] else rows
  {
  }

  lemma {:induction false} AppendedIsListing(rows: seq<Row>, s: Schema, path: Path, required: bool, depth: nat)
    requires Named(s) && NamedPath(path)
    ensures Appended(rows, s, PathText(path), required, depth) == rows + RowsOf(Listing(s, path, required, depth))
    decreases ROW_DEPTH - depth, 1, 0
  {
    var own := Own(s, path, required);
    OwnRow(rows, s, path, required);
    var c := ChildrenOf(s);
    if depth < ROW_DEPTH && c.Children? {
      ChildrenNamed(s);
      AppendedIsListingOfFields(rows + RowsOf(own), SortedFields(c.fields), c.required, c.inArray, path, depth);
      RowsJoin(rows, own, ListingOfFields(SortedFields(c.fields), c.required, c.inArray, path, depth));
    } else {
      assert own + [] == own;
    }
  }

  lemma {:induction false} AppendedIsListingOfFields(rows: seq<Row>, fields: seq<Field>, required: seq<string>, inArray: bool,
                                                     path: Path, depth: nat)
    requires depth < ROW_DEPTH
    requires NamedPath(path) && forall f | f in fields :: f.name != "" && Named(f.schema)
    ensures AppendedFields(rows, fields, required, inArray, PathText(path), depth)
            == rows + RowsOf(ListingOfFields(fields, required, inArray, path, depth))
    decreases ROW_DEPTH - depth, 0, |fields|
  {
    if fields == [] {
    } else {
      var init, f := fields[..|fields| - 1], fields[|fields| - 1];
      var here := Below(path, f.name, inArray);
      AppendedIsListingOfFields(rows, init, required, inArray, path, depth);
      var before := ListingOfFields(init, required, inArray, path, depth);
      var below := Listing(f.schema, here, f.name in required, depth + 1);
      AppendedIsListing(rows + RowsOf(before), f.schema, here, f.name in required, depth + 1);
      RowsJoin(rows, before, below);
    }
  }

  /** The rows of a field table, as `field_table` asks for them. */
  method TableRows(s: Schema) returns (rows: seq<Row>)
    ensures Named(s) ==> rows == RowsOf(Listing(s, Root, true, 0))
  {
    var list := new RowList();
    Flatten(s, "", true, list, 0);
    rows := list.rows;
    if Named(s) {
      AppendedIsListing([], s, Root, true, 0);
    }
  }

  // ── Which nodes are listed ──────────────────────────────────────────────────

  /** The node that the key path `names` leads to from `s`, which stands at `path`; its required
      flag comes from the nearest enclosing list. */
  function At(s: Schema, path: Path, required: bool, names: seq<string>): Option<Spot>
    decreases |names|
  {
    if names == [] then Some(Spot(path, s, required))
    else match ChildrenOf(s)
      case Leaf => None
      case Children(fields, needed, inArray) =>
        (match Find(fields, names[0])
         case None => None
         case Some(child) => At(child, Below(path, names[0], inArray), names[0] in needed, names[1..]))
  }

  lemma {:induction false} FieldListed(fields: seq<Field>, f: Field, required: seq<string>, inArray: bool, path: Path, depth: nat, p: Spot)
    requires depth < ROW_DEPTH
    requires f in fields && p in Listing(f.schema, Below(path, f.name, inArray), f.name in required, depth + 1)
    ensures p in ListingOfFields(fields, required, inArray, path, depth)
    decreases |fields|
  {
    if f != fields[|fields| - 1] {
      FieldListed(fields[..|fields| - 1], f, required, inArray, path, depth, p);
    }
  }

  lemma {:induction false} ListedField(fields: seq<Field>, required: seq<string>, inArray: bool, path: Path, depth: nat, p: Spot)
    returns (f: Field)
    requires depth < ROW_DEPTH
    requires p in ListingOfFields(fields, required, inArray, path, depth)
    ensures f in fields && p in Listing(f.schema, Below(path, f.name, inArray), f.name in required, depth + 1)
    decreases |fields|
  {
    f := fields[|fields| - 1];
    if p !in Listing(f.schema, Below(path, f.name, inArray), f.name in required, depth + 1) {
      f := ListedField(fields[..|fields| - 1], required, inArray, path, depth, p);
    }
  }

  lemma BelowListed(s: Schema, path: Path, required: bool, depth: nat, f: Field, p: Spot)
    requires Proper(s) && depth < ROW_DEPTH && ChildrenOf(s).Children?
    requires Find(ChildrenOf(s).fields, f.name) == Some(f.schema)
    requires var c := ChildrenOf(s);
             p in Listing(f.schema, Below(path, f.name, c.inArray), f.name in c.required, depth + 1)
    ensures p in Listing(s, path, required, depth)
  {
    var c := ChildrenOf(s);
    ChildFound(s, f.name);
    FieldListed(SortedFields(c.fields), f, c.required, c.inArray, path, depth, p);
  }

  lemma FirstStep(s: Schema, path: Path, required: bool, names: seq<string>, p: Spot) returns (f: Field)
    requires Proper(s) && names != [] && At(s, path, required, names) == Some(p)
    ensures ChildrenOf(s).Children? && Find(ChildrenOf(s).fields, f.name) == Some(f.schema) && Proper(f.schema)
    ensures var c := ChildrenOf(s);
            At(f.schema, Below(path, f.name, c.inArray), f.name in c.required, names[1..]) == Some(p)
  {
    f := Field(names[0], Find(ChildrenOf(s).fields, names[0]).value);
    ChildFound(s, f.name);
  }

  lemma {:induction false} AtListed(s: Schema, path: Path, required: bool, depth: nat, names: seq<string>, p: Spot)
    requires Proper(s) && depth + |names| <= ROW_DEPTH && (path != Root || names != [])
    requires At(s, path, required, names) == Some(p)
    ensures p in Listing(s, path, required, depth)
    decreases |names|
  {
    if names == [] {
    } else {
      var f := FirstStep(s, path, required, names, p);
      var c := ChildrenOf(s);
      AtListed(f.schema, Below(path, f.name, c.inArray), f.name in c.required, depth + 1, names[1..], p);
      BelowListed(s, path, required, depth, f, p);
    }
  }

  /** `names` leads from `s` to `p` within the steps that `depth` leaves. */
  ghost predicate Leads(s: Schema, path: Path, required: bool, depth: nat, names: seq<string>, p: Spot) {
    && (names == [] || depth + |names| <= ROW_DEPTH)
    && (path != Root || names != [])
    && At(s, path, required, names) == Some(p)
  }

  lemma LeadsStep(s: Schema, path: Path, required: bool, depth: nat, f: Field, rest: seq<string>, p: Spot)
    requires depth < ROW_DEPTH && ChildrenOf(s).Children? && Find(ChildrenOf(s).fields, f.name) == Some(f.schema)
    requires Leads(f.schema, Below(path, f.name, ChildrenOf(s).inArray), f.name in ChildrenOf(s).required, depth + 1, rest, p)
    ensures Leads(s, path, required, depth, [f.name] + rest, p)
  {
  }

  lemma ListedBelow(s: Schema, path: Path, required: bool, depth: nat, p: Spot) returns (f: Field)
    requires Proper(s) && p in Listing(s, path, required, depth)
    requires path == Root || p != Spot(path, s, required)
    ensures depth < ROW_DEPTH && ChildrenOf(s).Children?
    ensures Find(ChildrenOf(s).fields, f.name) == Some(f.schema) && Proper(f.schema)
    ensures var c := ChildrenOf(s);
            p in Listing(f.schema, Below(path, f.name, c.inArray), f.name in c.required, depth + 1)
  {
    var c := ChildrenOf(s);
    f := ListedField(SortedFields(c.fields), c.required, c.inArray, path, depth, p);
    ChildSorted(s, f);
  }

  lemma {:induction false} ListedAt(s: Schema, path: Path, required: bool, depth: nat, p: Spot)
    returns (names: seq<string>)
    requires Proper(s) && p in Listing(s, path, required, depth)
    ensures Leads(s, path, required, depth, names, p)
    decreases ROW_DEPTH - depth
  {
    if path == Root || p != Spot(path, s, required) {
      var f := ListedBelow(s, path, required, depth, p);
      var c := ChildrenOf(s);
      var rest := ListedAt(f.schema, Below(path, f.name, c.inArray), f.name in c.required, depth + 1, p);
      LeadsStep(s, path, required, depth, f, rest, p);
      names := [f.name] + rest;
    } else {
      names := [];
    }
  }

  /** The first step of a key path: into a property of an object or of a node without a type, or into
      a property of the objects that an array declares; there is no other step. */
  lemma StepExact(s: Schema, path: Path, required: bool, name: string, rest: seq<string>)
    requires Proper(s)
    ensures forall child |
              (s.ty == Obj || s.ty == Missing) && s.table.Table? && Field(name, child) in s.table.fields ::
              At(s, path, required, [name] + rest) == At(child, Below(path, name, false), name in s.required, rest)
    ensures forall child |
              s.ty == Arr && s.items.Items? && s.items.schema.ty == Obj
              && s.items.schema.table.Table? && Field(name, child) in s.items.schema.table.fields ::
              At(s, path, required, [name] + rest)
              == At(child, Below(path, name, true), name in s.items.schema.required, rest)
    ensures At(s, path, required, [name] + rest).Some? ==> exists child ::
              || ((s.ty == Obj || s.ty == Missing) && s.table.Table? && Field(name, child) in s.table.fields)
              || (s.ty == Arr && s.items.Items? && s.items.schema.ty == Obj
                  && s.items.schema.table.Table? && Field(name, child) in s.items.schema.table.fields)
  {
    var names := [name] + rest;
    assert names[0] == name && names[1..] == rest;
    if ChildrenOf(s).Children? { FindExact(ChildrenOf(s).fields, name); }
  }

  /** The listing of a schema consists of the nodes reachable in one to six property steps. */
  lemma ListingExact(s: Schema, p: Spot)
    requires Proper(s)
    ensures p in Listing(s, Root, true, 0)
            <==> exists names: seq<string> :: 1 <= |names| <= 6 && At(s, Root, true, names) == Some(p)
  {
    if p in Listing(s, Root, true, 0) {
      var names := ListedAt(s, Root, true, 0, p);
    }
    if names: seq<string> :| 1 <= |names| <= 6 && At(s, Root, true, names) == Some(p) {
      AtListed(s, Root, true, 0, names, p);
    }
  }
}
