/** OpenAPI v3 schema nodes as the generator reads them, the JSON values it builds, and what it
    means for a value to satisfy a schema: section 5 of draft-wright-json-schema-validation-00,
    with the Kubernetes reading that an object schema is closed. */
module Schemas {
  import opened Options

  // The value of `type`; a node may lack it.
  datatype TypeName = Str | Int | Num | Bool | Arr | Obj | Missing | Other(name: string)

  datatype Json =
    | JNull
    | JBool(flag: bool)
    | JNum(number: real)
    | JStr(text: string)
    | JArr(elements: seq<Json>)
    | JObj(members: seq<Member>)

  // A dictionary keeps insertion order.
  datatype Member = Member(key: string, value: Json)

  // An `enum` list of scalars. Reading the first entry of an empty one raises IndexError.
  type Choices = c: seq<Json> | |c| > 0 && forall v | v in c :: !v.JArr? && !v.JObj? witness [JNull]

  datatype Field = Field(name: string, schema: Schema)
  datatype Table = NoTable | Table(fields: seq<Field>)
  datatype Items = NoItems | Items(schema: Schema)
  datatype Extra = NoExtra | Open(allowed: bool) | Values(schema: Schema)

  // Absent `pattern`, `minLength` and `minItems` read as "", 0 and 0, which mean the same.
  datatype Schema = Schema(
    ty: TypeName,
    choices: Option<Choices>,
    pattern: string,
    minLength: nat,
    maxLength: Option<nat>,
    dateTime: bool,
    minimum: Option<real>,
    maximum: Option<real>,
    items: Items,
    minItems: nat,
    maxItems: Option<nat>,
    table: Table,
    required: seq<string>,
    extra: Extra,
    summary: string)

  // The `{}` schema.
  const ANY := Schema(Missing, None, "", 0, None, false, None, None, NoItems, 0, None, NoTable, [], NoExtra, "")

  // The regular-expression engine: which patterns compile, `fullmatch`, and unanchored search.
  datatype Regex = Regex(compiles: string -> bool, full: (string, string) -> bool, found: (string, string) -> bool)

  /** `properties.get(name)` */
  function Find(fields: seq<Field>, name: string): (r: Option<Schema>) {
    if fields == [] then None
    else if fields[|fields| - 1].name == name then Some(fields[|fields| - 1].schema)
    else Find(fields[..|fields| - 1], name)
  }

  // `properties` is a dictionary: no name occurs twice.
  ghost predicate Distinct(fields: seq<Field>) {
    forall i, j | 0 <= i < j < |fields| :: fields[i].name != fields[j].name
  }

  /** Every `properties` table in the schema is a dictionary. */
  ghost predicate Proper(s: Schema) {
    && (s.items.Items? ==> Proper(s.items.schema))
    && (s.extra.Values? ==> Proper(s.extra.schema))
    && (s.table.Table? ==> Distinct(s.table.fields) && forall f | f in s.table.fields :: Proper(f.schema))
  }

  lemma {:induction false} FindExact(fields: seq<Field>, name: string)
    requires Distinct(fields)
    ensures Find(fields, name).Some? ==> Field(name, Find(fields, name).value) in fields
    ensures forall f | f in fields && f.name == name :: Find(fields, name) == Some(f.schema)
    ensures Find(fields, name).None? ==> forall f | f in fields :: f.name != name
  {
    if fields == [] {
    } else {
      var init, last := fields[..|fields| - 1], fields[|fields| - 1];
      FindExact(init, name);
      assert fields == init + [last];
    }
  }

  // ── Validation ──────────────────────────────────────────────────────────────

  /** Sections 5.6 to 5.8: length limits and pattern of a string. */
  predicate TextAllowed(re: Regex, t: string, s: Schema) {
    && s.minLength <= |t|
    && (s.maxLength.Some? ==> |t| <= s.maxLength.value)
    && (s.pattern == "" || re.found(s.pattern, t))
  }

  /** Sections 5.2 and 5.4. */
  predicate NumberAllowed(n: real, s: Schema) {
    && (s.minimum.Some? ==> s.minimum.value <= n)
    && (s.maximum.Some? ==> n <= s.maximum.value)
  }

  /** Section 5.20. */
  predicate ChoiceAllowed(v: Json, s: Schema) {
    s.choices.Some? ==> v in s.choices.value
  }

  /** Section 5.21. */
  predicate TypeAllowed(v: Json, ty: TypeName) {
    match ty
    case Str => v.JStr?
    case Int => v.JNum? && v.number == v.number.Floor as real
    case Num => v.JNum?
    case Bool => v.JBool?
    case Arr => v.JArr?
    case Obj => v.JObj?
    case Missing => true
    case Other(name) => name == "null" && v.JNull?
  }

  ghost predicate HasKey(ms: seq<Member>, key: string) {
    exists m :: m in ms && m.key == key
  }

  ghost predicate DistinctKeys(ms: seq<Member>) {
    forall i, j | 0 <= i < j < |ms| :: ms[i].key != ms[j].key
  }

  /** The schema that governs the member `key`, or None when the object may not have it. */
  function Governing(s: Schema, key: string): Option<Schema> {
    if s.table.Table? && Find(s.table.fields, key).Some? then Find(s.table.fields, key)
    else match s.extra
      case Values(w) => Some(w)
      case Open(allowed) => if allowed then Some(ANY) else None
      case NoExtra => if s.table.Table? then None else Some(ANY)
  }

  ghost predicate Validates(re: Regex, v: Json, s: Schema)
    decreases v
  {
    && TypeAllowed(v, s.ty)
    && ChoiceAllowed(v, s)
    && match v
       case JStr(t) => TextAllowed(re, t, s)
       case JNum(n) => NumberAllowed(n, s)
       case JArr(xs) =>
         && s.minItems <= |xs|
         && (s.maxItems.Some? ==> |xs| <= s.maxItems.value)
         && (s.items.Items? ==> forall x | x in xs :: Validates(re, x, s.items.schema))
       case JObj(ms) =>
         && DistinctKeys(ms)
         && (forall k | k in s.required :: HasKey(ms, k))
         && (forall m | m in ms :: Governing(s, m.key).Some? && Validates(re, m.value, Governing(s, m.key).value))
       case JNull => true
       case JBool(_) => true
  }
}
