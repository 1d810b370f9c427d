/** The example and the field table of one schema: `build_example` and `flatten` walk it separately,
    and count depth differently at arrays. */
module Agreement {
  import opened Options
  import opened Schemas
  import opened Example
  import opened FieldTable
  import opened RowOrder

  /** `keys` is a path of keys from the root of `v`, through list elements as needed. */
  ghost predicate KeyPath(v: Json, keys: seq<string>)
    decreases v
  {
    keys == [] || match v
                  case JObj(ms) => exists m | m in ms && m.key == keys[0] :: KeyPath(m.value, keys[1..])
                  case JArr(xs) => exists x | x in xs :: KeyPath(x, keys)
                  case _ => false
  }

  /** The path enters a free-form map, takes the key of a reference that does not declare it, or
      crosses an array of arrays. */
  predicate Detours(s: Schema, keys: seq<string>)
    decreases s
  {
    keys != [] && match s.ty
                  case Obj =>
                    s.table.NoTable?
                    || Find(s.table.fields, keys[0]).None?
                    || (exists f | f in s.table.fields && f.name == keys[0] :: Detours(f.schema, keys[1..]))
                  case Arr => s.items.Items? && (s.items.schema.ty == Arr || Detours(s.items.schema, keys))
                  case _ => false
  }

  ghost predicate Reaches(s: Schema, keys: seq<string>) {
    At(s, Root, true, keys).Some?
  }

  lemma {:induction false} AtAnywhere(s: Schema, path: Path, required: bool, path': Path, required': bool, keys: seq<string>)
    ensures At(s, path, required, keys).Some? <==> At(s, path', required', keys).Some?
    decreases |keys|
  {
    if keys != [] && ChildrenOf(s).Children? && Find(ChildrenOf(s).fields, keys[0]).Some? {
      var c := ChildrenOf(s);
      AtAnywhere(Find(c.fields, keys[0]).value, Below(path, keys[0], c.inArray), keys[0] in c.required,
                 Below(path', keys[0], c.inArray), keys[0] in c.required, keys[1..]);
    }
  }

  lemma {:induction false} AtNames(s: Schema, path: Path, required: bool, keys: seq<string>)
    requires At(s, path, required, keys).Some?
    ensures Components(At(s, path, required, keys).value.path) == Components(path) + keys
    decreases |keys|
  {
    if keys != [] {
      var c := ChildrenOf(s);
      AtNames(Find(c.fields, keys[0]).value, Below(path, keys[0], c.inArray), keys[0] in c.required, keys[1..]);
      assert Components(path) + [keys[0]] + keys[1..] == Components(path) + keys;
    } else {
      assert Components(path) + keys == Components(path);
    }
  }

  /** One step through the field `f`, below an object or below the items of an array. */
  lemma ReachStep(s: Schema, f: Field, keys: seq<string>)
    requires ChildrenOf(s).Children? && Find(ChildrenOf(s).fields, f.name) == Some(f.schema)
    requires keys != [] && keys[0] == f.name
    ensures Reaches(s, keys) <==> Reaches(f.schema, keys[1..])
  {
    var c := ChildrenOf(s);
    AtAnywhere(f.schema, Below(Root, f.name, c.inArray), f.name in c.required, Root, true, keys[1..]);
  }

  lemma ItemsReach(s: Schema, keys: seq<string>)
    requires s.ty == Arr && s.items.Items? && s.items.schema.ty == Obj && s.items.schema.table.Table? && keys != []
    ensures Reaches(s, keys) <==> Reaches(s.items.schema, keys)
  {
    var fields := s.items.schema.table.fields;
    if Find(fields, keys[0]).Some? {
      var f := Field(keys[0], Find(fields, keys[0]).value);
      ReachStep(s, f, keys);
      ReachStep(s.items.schema, f, keys);
    }
  }

  lemma MemberField(env: Env, s: Schema, depth: nat, m: Member) returns (f: Field)
    requires Proper(s) && s.table.Table? && m in BuildFields(env, s.table.fields, s.required, depth)
    ensures f in s.table.fields && f.name == m.key && Find(s.table.fields, m.key) == Some(f.schema)
    ensures forall g | g in s.table.fields && g.name == m.key :: g == f
    ensures Build(env, f.name, f.schema, depth + 1, f.name in s.required) == Some(m.value)
  {
    f := FieldOf(env, s.table.fields, s.required, depth, m);
    FindExact(s.table.fields, m.key);
  }

  lemma FirstKey(v: Json, keys: seq<string>) returns (m: Member)
    requires v.JObj? && keys != [] && KeyPath(v, keys)
    ensures m in v.members && m.key == keys[0] && KeyPath(m.value, keys[1..])
  {
    m :| m in v.members && m.key == keys[0] && KeyPath(m.value, keys[1..]);
  }

  // The object is built field by field.
  predicate IsPlain(s: Schema) {
    s.ty == Obj && s.table.Table? && !IsRef(s.table.fields)
  }

  /** The field that the first key of a path through a built object leads to. */
  lemma FieldOnPath(env: Env, name: string, s: Schema, depth: nat, required: bool, keys: seq<string>) returns (f: Field)
    requires Proper(s) && IsPlain(s) && keys != []
    requires Build(env, name, s, depth, required).Some?
    requires KeyPath(Build(env, name, s, depth, required).value, keys)
    ensures depth < HARD_LIMIT
    ensures f in s.table.fields && f.name == keys[0] && Find(s.table.fields, f.name) == Some(f.schema)
    ensures forall g | g in s.table.fields && g.name == f.name :: g == f
    ensures var v := Build(env, f.name, f.schema, depth + 1, f.name in s.required);
            v.Some? && KeyPath(v.value, keys[1..])
  {
    var m := FirstKey(Build(env, name, s, depth, required).value, keys);
    f := MemberField(env, s, depth, m);
  }

  lemma RefKeys(env: Env, name: string, keys: seq<string>)
    requires KeyPath(JObj([Member("name", JStr(RefName(env, name)))]), keys)
    ensures |keys| <= 1
  {
  }

  /** Along the keys of an example, the table's walk succeeds exactly when there is no detour. */
  lemma {:induction false} WalksAgree(env: Env, name: string, s: Schema, depth: nat, required: bool, keys: seq<string>)
    requires Proper(s)
    requires Build(env, name, s, depth, required).Some?
    requires KeyPath(Build(env, name, s, depth, required).value, keys)
    ensures Reaches(s, keys) <==> !Detours(s, keys)
    decreases s
  {
    if keys == [] {
    } else if s.ty == Arr {
      WalksAgree(env, name, s.items.schema, depth + 1, true, keys);
      if s.items.schema.ty == Obj && s.items.schema.table.Table? {
        ItemsReach(s, keys);
      }
    } else if IsPlain(s) {
      var f := FieldOnPath(env, name, s, depth, required, keys);
      ReachStep(s, f, keys);
      WalksAgree(env, f.name, f.schema, depth + 1, f.name in s.required, keys[1..]);
    } else if s.ty == Obj && s.table.Table? {
      RefKeys(env, name, keys);
      RefAgrees(s, keys);
    }
  }

  lemma RefAgrees(s: Schema, keys: seq<string>)
    requires Proper(s) && s.ty == Obj && s.table.Table? && |keys| == 1
    ensures Reaches(s, keys) <==> !Detours(s, keys)
  {
    assert keys[1..] == [];
    if Find(s.table.fields, keys[0]).Some? {
      ReachStep(s, Field(keys[0], Find(s.table.fields, keys[0]).value), keys);
    }
  }

  /** Some row of the field table has this component path. */
  ghost predicate HasRow(s: Schema, keys: seq<string>) {
    exists p :: p in Listing(s, Root, true, 0) && Components(p.path) == keys
  }

  /** A key path is that of some row exactly when it leads to a node in one to six steps. */
  lemma RowExists(s: Schema, keys: seq<string>)
    requires Proper(s) && keys != []
    ensures HasRow(s, keys) <==> |keys| <= 6 && Reaches(s, keys)
  {
    if p :| p in Listing(s, Root, true, 0) && Components(p.path) == keys {
      RowReached(s, p);
    }
    if |keys| <= 6 && Reaches(s, keys) {
      AtNames(s, Root, true, keys);
      ListingExact(s, At(s, Root, true, keys).value);
      assert [] + keys == keys;
    }
  }

  lemma RowReached(s: Schema, p: Spot)
    requires Proper(s) && p in Listing(s, Root, true, 0)
    ensures |Components(p.path)| <= 6 && Reaches(s, Components(p.path))
  {
    ListingExact(s, p);
    var names: seq<string> :| 1 <= |names| <= 6 && At(s, Root, true, names) == Some(p);
    AtNames(s, Root, true, names);
    assert [] + names == names;
  }

  /** A key path of an example has a row in the field table of the same schema exactly when it has
      at most six components and takes no detour. */
  lemma ExamplePathsListed(env: Env, name: string, s: Schema, keys: seq<string>)
    requires Proper(s) && keys != []
    requires Build(env, name, s, 0, true).Some?
    requires KeyPath(Build(env, name, s, 0, true).value, keys)
    ensures HasRow(s, keys) <==> |keys| <= 6 && !Detours(s, keys)
  {
    WalksAgree(env, name, s, 0, true, keys);
    RowExists(s, keys);
  }

  // ── The nesting bound in keys ───────────────────────────────────────────────

  /** The path enters a free-form map. */
  predicate EntersMap(s: Schema, keys: seq<string>)
    decreases s
  {
    keys != [] && match s.ty
                  case Obj =>
                    s.table.NoTable?
                    || (exists f | f in s.table.fields && f.name == keys[0] :: EntersMap(f.schema, keys[1..]))
                  case Arr => s.items.Items? && EntersMap(s.items.schema, keys)
                  case _ => false
  }

  /** Along the keys of properties, no path of an example crosses more objects than the hard limit
      leaves: nine from the root of a spec. */
  lemma {:induction false} KeysBounded(env: Env, name: string, s: Schema, depth: nat, required: bool, keys: seq<string>)
    requires Proper(s)
    requires Build(env, name, s, depth, required).Some?
    requires KeyPath(Build(env, name, s, depth, required).value, keys)
    ensures EntersMap(s, keys) || |keys| <= Room(depth)
    decreases s
  {
    if keys == [] {
    } else if s.ty == Arr {
      KeysBounded(env, name, s.items.schema, depth + 1, true, keys);
    } else if IsPlain(s) {
      var f := FieldOnPath(env, name, s, depth, required, keys);
      KeysBounded(env, f.name, f.schema, depth + 1, f.name in s.required, keys[1..]);
      BoundedStep(s, depth, f, keys);
    } else if s.ty == Obj && s.table.Table? {
      RefKeys(env, name, keys);
    }
  }

  lemma BoundedStep(s: Schema, depth: nat, f: Field, keys: seq<string>)
    requires s.ty == Obj && s.table.Table? && f in s.table.fields && depth < HARD_LIMIT
    requires keys != [] && f.name == keys[0]
    requires EntersMap(f.schema, keys[1..]) || |keys[1..]| <= Room(depth + 1)
    ensures EntersMap(s, keys) || |keys| <= Room(depth)
  {
  }

  // ── The type column ─────────────────────────────────────────────────────────

  /** What the type cell of a row says about a value. */
  ghost predicate CellFits(s: Schema, v: Json) {
    match CellOf(s)
    case Plain(ty) => TypeAllowed(v, ty)
    case ArrayOf(ty) => v.JArr? && v.elements != [] && forall x | x in v.elements :: TypeAllowed(x, ty)
    case MapOfString => v.JObj? && forall m | m in v.members :: m.value.JStr?
    case Enumerated => ChoiceAllowed(v, s)
  }

  /** Where the example heeds the `enum` that the table shows: a text takes its first entry, a number
      or a flag may miss it, and a list or an object always does. */
  predicate EnumHeeded(env: Env, name: string, s: Schema) {
    match s.ty
    case Int => ChoiceAllowed(JNum(SampleInt(env, name, s) as real), s)
    case Num => ChoiceAllowed(JNum(SampleInt(env, name, s) as real), s)
    case Bool => ChoiceAllowed(JBool(env.names.switch(env.names.lower(name))), s)
    case Arr => s.choices.None?
    case Obj => s.choices.None?
    case _ => true
  }

  /** The type cell agrees with the example of the same node exactly when the example heeds the
      node's `enum` and a list of texts does not take a first choice that is no text. */
  lemma CellExact(env: Env, name: string, s: Schema, depth: nat, required: bool)
    requires Build(env, name, s, depth, required).Some?
    ensures CellFits(s, Build(env, name, s, depth, required).value)
            <==> && EnumHeeded(env, name, s)
                 && (s.ty == Arr && s.items.schema.ty == Str && s.items.schema.choices.Some? ==>
                       s.items.schema.choices.value[0].JStr?)
  {
    var v := Build(env, name, s, depth, required).value;
    if s.ty == Arr {
      assert v.elements[0] in v.elements;
    }
  }
}
