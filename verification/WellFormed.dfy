/** A class of schemas, decided without looking at names or samples, whose examples always validate. */
module WellFormed {
  import opened Options
  import opened Schemas
  import opened Fitting
  import opened Example
  import opened Soundness

  // No default number of the heuristics is larger.
  const MAX_DEFAULT: int := 443

  ghost predicate Moderate(names: Names) {
    forall n :: names.count(n) <= MAX_DEFAULT
  }

  // ── Leaves ──────────────────────────────────────────────────────────────────

  /** An `enum` that starts with a legal text; or limits that can be met; or a pattern that accepts
      some stock text, and whose full matches all have a legal length. */
  ghost predicate TameText(re: Regex, stock: seq<string>, s: Schema) {
    if s.choices.Some? then s.choices.value[0].JStr? && TextAllowed(re, s.choices.value[0].text, s)
    else if s.pattern == "" then LimitsMeet(s)
    else
      && re.compiles(s.pattern)
      && (exists w | w in stock :: re.full(s.pattern, w))
      && (forall t :: re.full(s.pattern, t) ==> s.minLength <= |t| && (s.maxLength.Some? ==> |t| <= s.maxLength.value))
  }

  /** A minimum that is whole or at most 1; a `maximum` and an `enum` that admit the number it leads
      to, or a `maximum` that admits every default. */
  predicate TameNumber(s: Schema) {
    match s.minimum
    case None =>
      s.choices.None? && (s.maximum.Some? ==> MAX_DEFAULT as real <= s.maximum.value)
    case Some(least) =>
      && (least <= 1.0 || least == least.Floor as real)
      && (s.maximum.Some? ==> FromMinimum(least) as real <= s.maximum.value)
      && ChoiceAllowed(JNum(FromMinimum(least) as real), s)
  }

  predicate TameFlag(s: Schema) {
    ChoiceAllowed(JBool(true), s) && ChoiceAllowed(JBool(false), s)
  }

  /** A map whose entries suit every sample text. */
  predicate TameMap(re: Regex, s: Schema) {
    && s.required == []
    && (s.extra.Values? && s.extra.schema.ty == Str ==>
          forall t | t in ["dev", "platform", "value"] :: TextSuits(re, t, s.extra.schema))
  }

  /** A reference that admits any text of at least eight characters as `name` and requires no more. */
  predicate TameRef(s: Schema) {
    var w := Governing(s, "name");
    && (forall k | k in s.required :: k == "name")
    && w.Some?
    && (w.value.ty == Str || w.value.ty == Missing)
    && w.value.choices.None? && w.value.pattern == "" && w.value.minLength <= 8 && w.value.maxLength.None?
  }

  // ── Trees ───────────────────────────────────────────────────────────────────

  /** A required node that yields a value whatever the heuristics do. */
  ghost predicate Solid(s: Schema, depth: nat)
    decreases s
  {
    match s.ty
    case Str => s.choices.Some? ==> s.choices.value[0] != JNull
    case Int => true
    case Num => true
    case Bool => true
    case Arr => s.items.Items? && Solid(s.items.schema, depth + 1)
    case Obj =>
      s.table.NoTable?
      || (depth < HARD_LIMIT
          && (IsRef(s.table.fields)
              || exists f | f in s.table.fields :: f.name in s.required && Solid(f.schema, depth + 1)))
    case Missing => false
    case Other(_) => false
  }

  /** Tame leaves, maps and references; no `enum` on lists and objects; room for the copies of a list
      item; and solid required children. */
  ghost predicate Tame(re: Regex, stock: seq<string>, s: Schema, depth: nat)
    decreases s
  {
    match s.ty
    case Str => TameText(re, stock, s)
    case Int => TameNumber(s)
    case Num => TameNumber(s)
    case Bool => TameFlag(s)
    case Arr =>
      && s.choices.None?
      && (s.maxItems.Some? ==> CopyCount(s) <= s.maxItems.value)
      && (s.items.Items? ==> Tame(re, stock, s.items.schema, depth + 1))
    case Obj =>
      && s.choices.None?
      && (if s.table.NoTable? then TameMap(re, s)
          else if IsRef(s.table.fields) then TameRef(s)
          else
            && (forall k | k in s.required :: exists f | f in s.table.fields :: f.name == k && Solid(f.schema, depth + 1))
            && (forall f | f in s.table.fields :: Tame(re, stock, f.schema, depth + 1)))
    case Missing => true
    case Other(_) => true
  }

  // ── The theorem ─────────────────────────────────────────────────────────────

  lemma {:induction false} SolidProduces(env: Env, name: string, s: Schema, depth: nat)
    requires Solid(s, depth)
    ensures Produces(env, name, s, depth, true)
    decreases s
  {
    if s.ty == Arr {
      SolidProduces(env, name, s.items.schema, depth + 1);
    } else if s.ty == Obj && s.table.Table? && !IsRef(s.table.fields) {
      var f :| f in s.table.fields && f.name in s.required && Solid(f.schema, depth + 1);
      SolidProduces(env, f.name, f.schema, depth + 1);
    }
  }

  /** The pattern step ends with a full match, which needs no cut. */
  lemma TameTextIsSound(env: Env, name: string, s: Schema, required: bool)
    requires TameText(env.regex, env.stock, s)
    ensures SoundText(env, name, s, required)
  {
    if s.choices.None? && s.pattern != "" {
      var sample := SampleText(env, name, s, required);
      FitMeetsPattern(env.regex, env.stock, sample, s);
      assert env.regex.full(s.pattern, Pick(env.regex, env.stock, sample, s));
    }
  }

  lemma {:induction false} TameIsSound(env: Env, name: string, s: Schema, depth: nat, required: bool)
    requires Moderate(env.names) && Tame(env.regex, env.stock, s, depth)
    ensures Sound(env, name, s, depth, required)
    decreases s
  {
    if s.ty == Str {
      TameTextIsSound(env, name, s, required);
    } else if s.ty == Arr && s.items.Items? {
      TameIsSound(env, name, s.items.schema, depth + 1, true);
    } else if s.ty == Obj && s.table.NoTable? {
      assert "dev" in ["dev", "platform", "value"] && "platform" in ["dev", "platform", "value"];
      assert "value" in ["dev", "platform", "value"];
    } else if s.ty == Obj && !IsRef(s.table.fields) {
      forall k | k in s.required
        ensures exists f :: f in s.table.fields && f.name == k && Kept(env, f, s.required, depth)
      {
        var f :| f in s.table.fields && f.name == k && Solid(f.schema, depth + 1);
        SolidProduces(env, f.name, f.schema, depth + 1);
        assert Kept(env, f, s.required, depth);
      }
      forall f | f in s.table.fields ensures Sound(env, f.name, f.schema, depth + 1, f.name in s.required) {
        TameIsSound(env, f.name, f.schema, depth + 1, f.name in s.required);
      }
    }
  }

  /** Whatever the kind, the name rules and the regular-expression engine: an example of a tame spec
      satisfies it. */
  lemma TameExamplesValidate(env: Env, s: Schema)
    requires Sensible(env.names) && Moderate(env.names) && Coherent(env.regex)
    requires Proper(s) && Tame(env.regex, env.stock, s, 0)
    requires Build(env, "spec", s, 0, true).Some?
    ensures Validates(env.regex, Build(env, "spec", s, 0, true).value, s)
  {
    TameIsSound(env, "spec", s, 0, true);
    SoundExact(env, "spec", s, 0, true);
  }
}
