/** `build_example`: synthesising an example value from a schema. */
module Example {
  import opened Options
  import opened Text
  import opened Schemas
  import opened Fitting

  const MAX_DEPTH: nat := 5
  const HARD_LIMIT: nat := MAX_DEPTH + 4

  // The field names of a reference to another resource.
  const REF_KEYS: seq<string> := ["name", "arn", "id", "namespace"]

  // The name heuristics of `sample_string`, `sample_int` and `sample_bool`, on lower-cased names:
  // `fixed` holds the rules tried before the id rule (they also see the lower-cased kind).
  datatype Names = Names(
    lower: string -> string,
    fixed: (string, string) -> Option<string>,
    idSample: string -> string,
    timed: string -> bool,
    count: string -> int,
    switch: string -> bool)

  // `cutoff` is the depth at which optional objects are dropped; the script uses MAX_DEPTH.
  datatype Env = Env(kind: string, cutoff: nat, regex: Regex, stock: seq<string>, names: Names)

  /** No rule yields the empty string: only the id rule does, for optional fields. */
  ghost predicate Sensible(names: Names) {
    && (forall n, k :: names.fixed(n, k) != Some(""))
    && (forall n :: names.idSample(n) != "")
  }

  // ── Scalars ─────────────────────────────────────────────────────────────────

  /** `sample_string` on a node without `enum`. */
  function SampleText(env: Env, name: string, s: Schema, required: bool): string {
    var low := env.names.lower(name);
    match env.names.fixed(low, env.names.lower(env.kind))
    case Some(t) => t
    case None =>
      if EndsWith(low, "id") then
        if !required then "" else Fit(env.regex, env.stock, env.names.idSample(low), s)
      else if env.names.timed(low) || s.dateTime then "2026-01-01T00:00:00Z"
      else "example"
  }

  /** A null first choice is Python's None, which omits the node like any other None. */
  function BuildText(env: Env, name: string, s: Schema, required: bool): Option<Json> {
    var v := if s.choices.Some? then s.choices.value[0] else JStr(SampleText(env, name, s, required));
    if v == JNull || (v == JStr("") && !required) then None
    else if s.choices.None? then Some(JStr(Fit(env.regex, env.stock, v.text, s)))
    else Some(v)
  }

  /** `int(x)`: towards zero. */
  function Truncate(x: real): int {
    if x >= 0.0 then x.Floor else -((-x).Floor)
  }

  /** `max(int(minimum), 1)` */
  function FromMinimum(minimum: real): int {
    if Truncate(minimum) > 1 then Truncate(minimum) else 1
  }

  function SampleInt(env: Env, name: string, s: Schema): int {
    if s.minimum.Some? then FromMinimum(s.minimum.value) else env.names.count(env.names.lower(name))
  }

  // ── Containers ──────────────────────────────────────────────────────────────

  function Copies(v: Json, n: nat): (r: seq<Json>)
    ensures |r| == n && forall x | x in r :: x == v
  {
    seq(n, _ => v)
  }

  function CopyCount(s: Schema): nat {
    if s.minItems > 1 then s.minItems else 1
  }

  // The entries of a sample map of texts.
  const TAG_ENTRIES: seq<Member> := [Member("environment", JStr("dev")), Member("team", JStr("platform"))]
  const KEY_ENTRY: seq<Member> := [Member("key", JStr("value"))]

  /** An object node without `properties`. */
  function BuildMap(env: Env, name: string, s: Schema): seq<Member> {
    if s.extra.Values? && s.extra.schema.ty == Str then
      if Contains(env.names.lower(name), "tag") then TAG_ENTRIES else KEY_ENTRY
    else []
  }

  predicate IsRef(fields: seq<Field>) {
    fields != [] && forall f | f in fields :: f.name in REF_KEYS
  }

  function RefName(env: Env, name: string): string {
    "example-" + RemoveSuffix(env.names.lower(name), "ref")
  }

  /** Deep optional objects are left out to keep examples readable. */
  predicate Skips(f: Field, required: seq<string>, depth: nat) {
    f.name !in required && depth >= 3 && f.schema.ty == Obj
  }

  /** What `build_example` returns; None omits the node. */
  function Build(env: Env, name: string, s: Schema, depth: nat, required: bool): Option<Json>
    decreases s
  {
    match s.ty
    case Str => BuildText(env, name, s, required)
    case Int => Some(JNum(SampleInt(env, name, s) as real))
    case Num => Some(JNum(SampleInt(env, name, s) as real))
    case Bool => Some(JBool(env.names.switch(env.names.lower(name))))
    case Arr =>
      if s.items.NoItems? then None
      else (match Build(env, name, s.items.schema, depth + 1, true)
            case None => None
            case Some(v) => Some(JArr(Copies(v, CopyCount(s)))))
    case Obj =>
      if s.table.NoTable? then Some(JObj(BuildMap(env, name, s)))
      else if depth >= env.cutoff && !required then None
      else if depth >= HARD_LIMIT then None
      else if IsRef(s.table.fields) then Some(JObj([Member("name", JStr(RefName(env, name)))]))
      else
        var out := BuildFields(env, s.table.fields, s.required, depth);
        if out == [] then None else Some(JObj(out))
    case Missing => None
    case Other(_) => None
  }

  function Child(env: Env, f: Field, required: seq<string>, depth: nat): Option<Json>
    decreases f
  {
    if Skips(f, required, depth) then None
    else Build(env, f.name, f.schema, depth + 1, f.name in required)
  }

  function BuildFields(env: Env, fields: seq<Field>, required: seq<string>, depth: nat): seq<Member>
    decreases fields
  {
    if fields == [] then []
    else
      var f := fields[|fields| - 1];
      BuildFields(env, fields[..|fields| - 1], required, depth)
      + (match Child(env, f, required, depth) case None => [] case Some(v) => [Member(f.name, v)])
  }

  /** The recursion with its loop over `properties`. Field names are distinct, so each assignment
      into the dictionary appends a new key. */
  method BuildExample(env: Env, name: string, s: Schema, depth: nat, required: bool) returns (v: Option<Json>)
    ensures v == Build(env, name, s, depth, required)
    decreases s
  {
    match s.ty {
      case Str =>
        var text: string;
        if s.choices.Some? {
          var choice := s.choices.value[0];
          if choice == JStr("") && !required { return None; }
          return if choice == JNull then None else Some(choice);
        }
        text := SampleText(env, name, s, required);
        if text == "" && !required { return None; }
        text := FitConstraints(env.regex, env.stock, text, s);
        return Some(JStr(text));
      case Int => return Some(JNum(SampleInt(env, name, s) as real));
      case Num => return Some(JNum(SampleInt(env, name, s) as real));
      case Bool => return Some(JBool(env.names.switch(env.names.lower(name))));
      case Arr =>
        if s.items.NoItems? { return None; }
        var item := BuildExample(env, name, s.items.schema, depth + 1, true);
        if item.None? { return None; }
        return Some(JArr(Copies(item.value, CopyCount(s))));
      case Obj =>
        if s.table.NoTable? { return Some(JObj(BuildMap(env, name, s))); }
        if depth >= env.cutoff && !required { return None; }
        if depth >= HARD_LIMIT { return None; }
        var fields := s.table.fields;
        if IsRef(fields) { return Some(JObj([Member("name", JStr(RefName(env, name)))])); }
        var out: seq<Member> := [];
        for i := 0 to |fields|
          invariant out == BuildFields(env, fields[..i], s.required, depth)
        {
          assert fields[..i + 1][..i] == fields[..i];
          var f := fields[i];
          if !(f.name !in s.required && depth >= 3 && f.schema.ty == Obj) {
            var child := BuildExample(env, f.name, f.schema, depth + 1, f.name in s.required);
            if child.Some? {
              out := out + [Member(f.name, child.value)];
            }
          }
        }
        assert fields[..|fields|] == fields;
        return if out == [] then None else Some(JObj(out));
      case Missing => return None;
      case Other(_) => return None;
    }
  }

  // ── The members of an object ────────────────────────────────────────────────

  /** The members are exactly the fields that are not skipped and yield a value. */
  lemma {:induction false} FieldsExact(env: Env, fields: seq<Field>, required: seq<string>, depth: nat)
    ensures forall f | f in fields && Child(env, f, required, depth).Some? ::
              Member(f.name, Child(env, f, required, depth).value) in BuildFields(env, fields, required, depth)
    ensures forall m | m in BuildFields(env, fields, required, depth) ::
              exists f :: f in fields && f.name == m.key && Child(env, f, required, depth) == Some(m.value)
  {
    if fields == [] {
    } else {
      var init, last := fields[..|fields| - 1], fields[|fields| - 1];
      FieldsExact(env, init, required, depth);
      assert fields == init + [last];
      forall m | m in BuildFields(env, fields, required, depth)
        ensures exists f :: f in fields && f.name == m.key && Child(env, f, required, depth) == Some(m.value)
      {
        if m !in BuildFields(env, init, required, depth) {
          assert last in fields && last.name == m.key && Child(env, last, required, depth) == Some(m.value);
        }
      }
    }
  }

  /** They keep the order of `properties` and have distinct keys. */
  lemma {:induction false} FieldsDistinct(env: Env, fields: seq<Field>, required: seq<string>, depth: nat)
    requires Distinct(fields)
    ensures DistinctKeys(BuildFields(env, fields, required, depth))
  {
    if fields == [] {
    } else {
      var init, last := fields[..|fields| - 1], fields[|fields| - 1];
      FieldsDistinct(env, init, required, depth);
      FieldsExact(env, init, required, depth);
      assert forall f | f in init :: f.name != last.name;
    }
  }

  // ── When a node is omitted ──────────────────────────────────────────────────

  predicate IsIdField(env: Env, name: string) {
    env.names.fixed(env.names.lower(name), env.names.lower(env.kind)).None? && EndsWith(env.names.lower(name), "id")
  }

  /** The nodes that yield a value, decided without building any value. */
  ghost predicate Produces(env: Env, name: string, s: Schema, depth: nat, required: bool)
    decreases s
  {
    match s.ty
    case Str =>
      if s.choices.Some? then s.choices.value[0] != JNull && (required || s.choices.value[0] != JStr(""))
      else required || !IsIdField(env, name)
    case Int => true
    case Num => true
    case Bool => true
    case Arr => s.items.Items? && Produces(env, name, s.items.schema, depth + 1, true)
    case Obj =>
      s.table.NoTable?
      || (&& (required || depth < env.cutoff)
          && depth < HARD_LIMIT
          && (IsRef(s.table.fields)
              || exists f | f in s.table.fields ::
                   !Skips(f, s.required, depth) && Produces(env, f.name, f.schema, depth + 1, f.name in s.required)))
    case Missing => false
    case Other(_) => false
  }

  lemma {:induction false} OmissionExact(env: Env, name: string, s: Schema, depth: nat, required: bool)
    requires Sensible(env.names)
    ensures Build(env, name, s, depth, required).Some? <==> Produces(env, name, s, depth, required)
    decreases s
  {
    if s.ty == Arr && s.items.Items? {
      OmissionExact(env, name, s.items.schema, depth + 1, true);
    } else if s.ty == Obj && s.table.Table? {
      var fields := s.table.fields;
      forall f | f in fields
        ensures Child(env, f, s.required, depth).Some? <==>
                !Skips(f, s.required, depth) && Produces(env, f.name, f.schema, depth + 1, f.name in s.required)
      {
        OmissionExact(env, f.name, f.schema, depth + 1, f.name in s.required);
      }
      FieldsExact(env, fields, s.required, depth);
      var out := BuildFields(env, fields, s.required, depth);
      if out != [] {
        assert out[0] in out;
      }
    }
  }

  // ── The guard on optional objects ───────────────────────────────────────────

  /** The calls that a run from a required root can make: optional objects stay at depth 3 or less. */
  predicate Visited(s: Schema, depth: nat, required: bool) {
    required || depth <= 3 || s.ty != Obj
  }

  lemma {:induction false} GuardIsDead(env: Env, cutoff: nat, name: string, s: Schema, depth: nat, required: bool)
    requires env.cutoff >= 4 && cutoff >= 4
    requires Visited(s, depth, required)
    ensures Build(env.(cutoff := cutoff), name, s, depth, required) == Build(env, name, s, depth, required)
    decreases s
  {
    if s.ty == Arr && s.items.Items? {
      GuardIsDead(env, cutoff, name, s.items.schema, depth + 1, true);
    } else if s.ty == Obj && s.table.Table? {
      GuardIsDeadInFields(env, cutoff, s.table.fields, s.required, depth);
    }
  }

  lemma {:induction false} GuardIsDeadInFields(env: Env, cutoff: nat, fields: seq<Field>, required: seq<string>, depth: nat)
    requires env.cutoff >= 4 && cutoff >= 4
    ensures BuildFields(env.(cutoff := cutoff), fields, required, depth) == BuildFields(env, fields, required, depth)
    decreases fields
  {
    if fields == [] {
    } else {
      var f := fields[|fields| - 1];
      GuardIsDeadInFields(env, cutoff, fields[..|fields| - 1], required, depth);
      if !Skips(f, required, depth) {
        GuardIsDead(env, cutoff, f.name, f.schema, depth + 1, f.name in required);
      }
    }
  }

  // An object with the single field `key`.
  function Box(key: string, inner: Schema, needed: bool): Schema {
    ANY.(ty := Obj, table := Table([Field(key, inner)]), required := if needed then [key] else [])
  }

  lemma BoxBuild(env: Env, name: string, key: string, inner: Schema, needed: bool, depth: nat, required: bool)
    requires key !in REF_KEYS
    requires depth < HARD_LIMIT && (required || depth < env.cutoff)
    requires needed || depth < 3
    ensures Build(env, name, Box(key, inner, needed), depth, required)
            == match Build(env, key, inner, depth + 1, needed)
               case None => None
               case Some(v) => Some(JObj([Member(key, v)]))
  {
    var s, f := Box(key, inner, needed), Field(key, inner);
    assert s.table.fields == [f] && f in s.table.fields;
    assert !IsRef(s.table.fields);
    assert f.name in s.required <==> needed;
    assert !Skips(f, s.required, depth);
    assert s.table.fields[..0] == [];
    var built := Build(env, key, inner, depth + 1, needed);
    assert Child(env, f, s.required, depth) == built;
    assert BuildFields(env, s.table.fields, s.required, depth) == if built.None? then [] else [Member(key, built.value)];
  }

  // A required chain of two objects above an optional one, which is visited at depth 3.
  function Witness(): Schema {
    Box("a", Box("b", Box("c", Box("x", ANY.(ty := Bool), true), false), true), true)
  }

  lemma WitnessBuild(env: Env)
    ensures Build(env, "spec", Witness(), 0, true).Some? <==> env.cutoff > 3
  {
    var leaf := Box("x", ANY.(ty := Bool), true);
    var c := Box("c", leaf, false);
    var b := Box("b", c, true);
    BoxBuild(env, "spec", "a", b, true, 0, true);
    BoxBuild(env, "a", "b", c, true, 1, true);
    BoxBuild(env, "b", "c", leaf, false, 2, true);
    if env.cutoff > 3 {
      BoxBuild(env, "c", "x", ANY.(ty := Bool), true, 3, false);
    }
  }

  /** Moving the guard, or deleting it, leaves every example unchanged exactly when it stands at
      depth 4 or more: at the script's depth 5 it never fires. */
  lemma GuardExact(env: Env, cutoff: nat)
    requires env.cutoff == 5
    ensures cutoff >= 4 <==>
            forall name, s :: Build(env.(cutoff := cutoff), name, s, 0, true) == Build(env, name, s, 0, true)
  {
    if cutoff >= 4 {
      forall name, s ensures Build(env.(cutoff := cutoff), name, s, 0, true) == Build(env, name, s, 0, true) {
        GuardIsDead(env, cutoff, name, s, 0, true);
      }
    } else {
      WitnessBuild(env);
      WitnessBuild(env.(cutoff := cutoff));
    }
  }

  // ── The hard limit ──────────────────────────────────────────────────────────

  /** One of the three values of a free-form map. */
  predicate IsSampleMap(ms: seq<Member>) {
    ms == [] || ms == KEY_ENTRY || ms == TAG_ENTRIES
  }

  /** On every path from the root of `v` to a leaf there are at most `n` objects, not counting a
      sample map. */
  ghost predicate NestsAtMost(v: Json, n: nat)
    decreases v
  {
    match v
    case JArr(xs) => forall x | x in xs :: NestsAtMost(x, n)
    case JObj(ms) => IsSampleMap(ms) || (n > 0 && forall m | m in ms :: NestsAtMost(m.value, n - 1))
    case _ => true
  }

  lemma NestsWeaken(v: Json, n: nat, k: nat)
    requires NestsAtMost(v, n) && n <= k
    ensures NestsAtMost(v, k)
    decreases v
  {
  }

  // The objects that can still nest at a depth.
  function Room(depth: nat): nat {
    if depth < 9 then 9 - depth else 0
  }

  /** The field that a member was built from. */
  lemma FieldOf(env: Env, fields: seq<Field>, required: seq<string>, depth: nat, m: Member) returns (f: Field)
    requires m in BuildFields(env, fields, required, depth)
    ensures f in fields && f.name == m.key
    ensures Build(env, f.name, f.schema, depth + 1, f.name in required) == Some(m.value)
  {
    FieldsExact(env, fields, required, depth);
    f :| f in fields && f.name == m.key && Child(env, f, required, depth) == Some(m.value);
  }

  /** However deep the schema is, and however many arrays it nests, at most nine objects nest in an
      example, besides a free-form map. */
  lemma {:induction false} NestingBound(env: Env, name: string, s: Schema, depth: nat, required: bool)
    requires Build(env, name, s, depth, required).Some?
    ensures NestsAtMost(Build(env, name, s, depth, required).value, Room(depth))
    decreases s
  {
    if s.ty == Arr {
      NestingBound(env, name, s.items.schema, depth + 1, true);
      NestsWeaken(Build(env, name, s.items.schema, depth + 1, true).value, Room(depth + 1), Room(depth));
    } else if s.ty == Obj && s.table.Table? && !IsRef(s.table.fields) {
      forall m | m in BuildFields(env, s.table.fields, s.required, depth) ensures NestsAtMost(m.value, Room(depth + 1)) {
        var f := FieldOf(env, s.table.fields, s.required, depth, m);
        NestingBound(env, f.name, f.schema, depth + 1, f.name in s.required);
      }
    }
  }

  // `k` required objects, one inside the other, around a free-form map.
  function Chain(k: nat): Schema {
    if k == 0 then ANY.(ty := Obj) else Box("a", Chain(k - 1), true)
  }

  // `v` is an object nesting exactly `n` objects, or is missing when `alive` is false.
  ghost predicate NestsExactly(v: Option<Json>, alive: bool, n: nat) {
    && (v.Some? <==> alive)
    && (v.Some? ==> v.value.JObj? && NestsAtMost(v.value, n) && (n > 0 ==> !NestsAtMost(v.value, n - 1)))
  }

  lemma WrapNests(key: string, v: Option<Json>, alive: bool, n: nat)
    requires NestsExactly(v, alive, n)
    ensures NestsExactly(match v case None => None case Some(w) => Some(JObj([Member(key, w)])), alive, n + 1)
  {
  }

  lemma ChainEnds(env: Env, name: string, k: nat, depth: nat)
    requires k == 0 || depth == HARD_LIMIT
    ensures NestsExactly(Build(env, name, Chain(k), depth, true), k == 0, k)
  {
  }

  /** The bound is reached, and one more required level empties the whole example: the dropped
      object leaves its parent without members, and so on up to the root. */
  lemma {:induction false} ChainExact(env: Env, name: string, k: nat, depth: nat)
    requires depth <= 9
    ensures NestsExactly(Build(env, name, Chain(k), depth, true), depth + k <= 9, k)
    decreases k
  {
    if k == 0 || depth == HARD_LIMIT {
      ChainEnds(env, name, k, depth);
    } else {
      ChainExact(env, "a", k - 1, depth + 1);
      WrapNests("a", Build(env, "a", Chain(k - 1), depth + 1, true), depth + k <= HARD_LIMIT, k - 1);
      BoxBuild(env, name, "a", Chain(k - 1), true, depth, true);
    }
  }

  predicate Truthy(v: Json) {
    match v
    case JNull => false
    case JBool(b) => b
    case JNum(n) => n != 0.0
    case JStr(t) => t != ""
    case JArr(xs) => xs != []
    case JObj(ms) => ms != []
  }

  /** The `spec` of an example document. */
  function SpecOf(env: Env, s: Schema): Json {
    match Build(env, "spec", s, 0, true)
    case Some(v) => if Truthy(v) then v else JObj([])
    case None => JObj([])
  }

  /** So ten or more required objects in a row leave the document an empty spec, and fewer do not. */
  lemma DeepSpecIsEmpty(env: Env, k: nat)
    requires k > 0
    ensures SpecOf(env, Chain(k)) == JObj([]) <==> k > 9
  {
    ChainExact(env, "spec", k, 0);
    assert NestsAtMost(JObj([]), 0);
  }

  /** The spec of a document is the example of the schema; what Python takes for false becomes an
      empty object, as does a missing example. */
  lemma SpecExact(env: Env, s: Schema)
    ensures Build(env, "spec", s, 0, true).None? ==> SpecOf(env, s) == JObj([])
    ensures forall v | Build(env, "spec", s, 0, true) == Some(v) ::
              SpecOf(env, s) == if v in [JNull, JBool(false), JNum(0.0), JStr(""), JArr([])] then JObj([]) else v
  {
  }
}
