/** When the value that `build_example` returns satisfies the schema it was built from. */
module Soundness {
  import opened Options
  import opened Text
  import opened Schemas
  import opened Fitting
  import opened Example

  // ── The condition, node by node ─────────────────────────────────────────────

  /** The pattern compiles and accepts the sample or some stock text in full. */
  predicate Accepted(env: Env, sample: string, s: Schema) {
    env.regex.compiles(s.pattern) && (env.regex.full(s.pattern, sample) || exists w | w in env.stock :: env.regex.full(s.pattern, w))
  }

  /** An `enum` is trusted blindly, and without a pattern the limits must be satisfiable. With a
      pattern `minLength` is ignored. Where nothing is cut, the pattern must accept the sample or a
      stock text, or be found in the sample that is kept; where the text is cut, it must be found in
      what remains. */
  predicate SoundText(env: Env, name: string, s: Schema, required: bool) {
    if s.choices.Some? then
      s.choices.value[0].JStr? && TextAllowed(env.regex, s.choices.value[0].text, s)
    else if s.pattern == "" then LimitsMeet(s)
    else
      var sample := SampleText(env, name, s, required);
      var chosen := Pick(env.regex, env.stock, sample, s);
      && s.minLength <= |chosen|
      && (s.maxLength.Some? ==> (s.maxLength.value > 0 || chosen == "") && s.minLength <= s.maxLength.value)
      && (if s.maxLength.Some? && |chosen| > s.maxLength.value
          then env.regex.found(s.pattern, chosen[..s.maxLength.value])
          else Accepted(env, sample, s) || env.regex.found(s.pattern, sample))
  }

  /** A minimum above 1 must be whole; `maximum` and `enum` are not looked at. */
  predicate SoundNumber(env: Env, name: string, s: Schema) {
    var n := SampleInt(env, name, s) as real;
    && ChoiceAllowed(JNum(n), s)
    && (s.minimum.Some? ==> s.minimum.value <= 1.0 || s.minimum.value == s.minimum.value.Floor as real)
    && (s.maximum.Some? ==> n <= s.maximum.value)
  }

  /** A free-form object gets two tag entries or a `key`, if its entries are text, and else nothing:
      these must suit the entry schema and cover `required`. */
  predicate SoundMap(env: Env, name: string, s: Schema) {
    var filled := s.extra.Values? && s.extra.schema.ty == Str;
    var tags := Contains(env.names.lower(name), "tag");
    && (forall k | k in s.required :: filled && if tags then k == "environment" || k == "team" else k == "key")
    && (filled ==>
          if tags then TextSuits(env.regex, "dev", s.extra.schema) && TextSuits(env.regex, "platform", s.extra.schema)
          else TextSuits(env.regex, "value", s.extra.schema))
  }

  predicate TextSuits(re: Regex, t: string, w: Schema) {
    ChoiceAllowed(JStr(t), w) && TextAllowed(re, t, w)
  }

  /** A reference must admit `name` as text and require nothing else. */
  ghost predicate SoundRef(env: Env, name: string, s: Schema) {
    var w := Governing(s, "name");
    && (forall k | k in s.required :: k == "name")
    && w.Some?
    && (w.value.ty == Str || w.value.ty == Missing)
    && TextSuits(env.regex, RefName(env, name), w.value)
  }

  ghost predicate Kept(env: Env, f: Field, required: seq<string>, depth: nat) {
    !Skips(f, required, depth) && Produces(env, f.name, f.schema, depth + 1, f.name in required)
  }

  ghost predicate Sound(env: Env, name: string, s: Schema, depth: nat, required: bool)
    decreases s
  {
    match s.ty
    case Str => SoundText(env, name, s, required)
    case Int => SoundNumber(env, name, s)
    case Num => SoundNumber(env, name, s)
    case Bool => ChoiceAllowed(JBool(env.names.switch(env.names.lower(name))), s)
    case Arr =>
      && s.choices.None?
      && (s.maxItems.Some? ==> CopyCount(s) <= s.maxItems.value)
      && (s.items.Items? ==> Sound(env, name, s.items.schema, depth + 1, true))
    case Obj =>
      && s.choices.None?
      && (if s.table.NoTable? then SoundMap(env, name, s)
          else if IsRef(s.table.fields) then SoundRef(env, name, s)
          else
            && (forall k | k in s.required :: exists f :: f in s.table.fields && f.name == k && Kept(env, f, s.required, depth))
            && (forall f | f in s.table.fields && Kept(env, f, s.required, depth) ::
                  Sound(env, f.name, f.schema, depth + 1, f.name in s.required)))
    case Missing => true
    case Other(_) => true
  }

  // ── The theorem ─────────────────────────────────────────────────────────────

  /** What is left of a text for a pattern, in terms of the sample and the stock texts. */
  lemma PatternExact(env: Env, sample: string, s: Schema)
    requires Coherent(env.regex) && s.pattern != ""
    ensures var chosen := Pick(env.regex, env.stock, sample, s);
            env.regex.found(s.pattern, chosen) <==> Accepted(env, sample, s) || env.regex.found(s.pattern, sample)
  {
    FirstMatchIsFirst(env.regex, env.stock, s.pattern);
    if env.regex.compiles(s.pattern) {
      FitMeetsPattern(env.regex, env.stock, sample, s);
    }
  }

  lemma TextExact(env: Env, name: string, s: Schema, required: bool)
    requires Sensible(env.names) && Coherent(env.regex) && s.ty == Str
    requires BuildText(env, name, s, required).Some?
    ensures Validates(env.regex, BuildText(env, name, s, required).value, s) <==> SoundText(env, name, s, required)
  {
    if s.choices.None? && s.pattern != "" {
      PatternExact(env, SampleText(env, name, s, required), s);
    }
  }

  lemma NumberExact(env: Env, name: string, s: Schema)
    requires s.ty == Int || s.ty == Num
    ensures Validates(env.regex, JNum(SampleInt(env, name, s) as real), s) <==> SoundNumber(env, name, s)
  {
  }

  /** An object of text members under an entry schema for text. */
  lemma TextMembersExact(re: Regex, ms: seq<Member>, s: Schema)
    requires s.ty == Obj && s.table.NoTable? && s.choices.None? && s.extra.Values? && s.extra.schema.ty == Str
    requires DistinctKeys(ms) && forall m | m in ms :: m.value.JStr?
    ensures Validates(re, JObj(ms), s) <==>
              && (forall k | k in s.required :: HasKey(ms, k))
              && (forall m | m in ms :: TextSuits(re, m.value.text, s.extra.schema))
  {
  }

  lemma TagEntries(k: string)
    ensures var ms := [Member("environment", JStr("dev")), Member("team", JStr("platform"))];
            && DistinctKeys(ms)
            && (HasKey(ms, k) <==> k == "environment" || k == "team")
  {
  }

  lemma KeyEntry(k: string)
    ensures HasKey([Member("key", JStr("value"))], k) <==> k == "key"
  {
  }

  lemma MapExact(env: Env, name: string, s: Schema)
    requires s.ty == Obj && s.table.NoTable? && s.choices.None?
    ensures Validates(env.regex, JObj(BuildMap(env, name, s)), s) <==> SoundMap(env, name, s)
  {
    var ms := BuildMap(env, name, s);
    if s.extra.Values? && s.extra.schema.ty == Str {
      if Contains(env.names.lower(name), "tag") {
        forall k ensures DistinctKeys(ms) && (HasKey(ms, k) <==> k == "environment" || k == "team") { TagEntries(k); }
        assert ms[0] in ms && ms[1] in ms;
      } else {
        forall k ensures HasKey(ms, k) <==> k == "key" { KeyEntry(k); }
        assert ms[0] in ms;
      }
      TextMembersExact(env.regex, ms, s);
    }
  }

  lemma RefExact(env: Env, name: string, s: Schema)
    requires s.ty == Obj && s.table.Table? && s.choices.None?
    ensures Validates(env.regex, JObj([Member("name", JStr(RefName(env, name)))]), s) <==> SoundRef(env, name, s)
  {
  }

  /** An object validates exactly when each kept field does and each required name is kept. */
  lemma FieldsSound(env: Env, name: string, s: Schema, depth: nat)
    requires Sensible(env.names)
    requires s.ty == Obj && s.table.Table? && s.choices.None? && Distinct(s.table.fields)
    requires forall f | f in s.table.fields && Child(env, f, s.required, depth).Some? ::
               Validates(env.regex, Child(env, f, s.required, depth).value, f.schema)
               <==> Sound(env, f.name, f.schema, depth + 1, f.name in s.required)
    ensures Validates(env.regex, JObj(BuildFields(env, s.table.fields, s.required, depth)), s)
            <==> && (forall k | k in s.required ::
                       exists f :: f in s.table.fields && f.name == k && Kept(env, f, s.required, depth))
                 && (forall f | f in s.table.fields && Kept(env, f, s.required, depth) ::
                       Sound(env, f.name, f.schema, depth + 1, f.name in s.required))
  {
    var fields := s.table.fields;
    var ms := BuildFields(env, fields, s.required, depth);
    FieldsExact(env, fields, s.required, depth);
    FieldsDistinct(env, fields, s.required, depth);
    forall f | f in fields
      ensures Child(env, f, s.required, depth).Some? <==> Kept(env, f, s.required, depth)
      ensures Governing(s, f.name) == Some(f.schema)
    {
      OmissionExact(env, f.name, f.schema, depth + 1, f.name in s.required);
      FindExact(fields, f.name);
    }
    forall k ensures HasKey(ms, k) <==> exists f :: f in fields && f.name == k && Kept(env, f, s.required, depth) {
      if f :| f in fields && f.name == k && Kept(env, f, s.required, depth) {
        assert Member(k, Child(env, f, s.required, depth).value) in ms;
      }
    }
    forall f | f in fields && Kept(env, f, s.required, depth)
      ensures Member(f.name, Child(env, f, s.required, depth).value) in ms
    {}
  }

  lemma ArrayExact(env: Env, name: string, s: Schema, depth: nat, required: bool)
    requires s.ty == Arr && Build(env, name, s, depth, required).Some?
    requires Validates(env.regex, Build(env, name, s.items.schema, depth + 1, true).value, s.items.schema)
             <==> Sound(env, name, s.items.schema, depth + 1, true)
    ensures Validates(env.regex, Build(env, name, s, depth, required).value, s) <==> Sound(env, name, s, depth, required)
  {
    var v := Build(env, name, s, depth, required).value;
    assert v.elements[0] in v.elements;
  }

  lemma ObjectExact(env: Env, name: string, s: Schema, depth: nat, required: bool)
    requires Sensible(env.names) && Proper(s)
    requires s.ty == Obj && Build(env, name, s, depth, required).Some?
    requires s.table.Table? ==> forall f | f in s.table.fields && Child(env, f, s.required, depth).Some? ::
               Validates(env.regex, Child(env, f, s.required, depth).value, f.schema)
               <==> Sound(env, f.name, f.schema, depth + 1, f.name in s.required)
    ensures Validates(env.regex, Build(env, name, s, depth, required).value, s) <==> Sound(env, name, s, depth, required)
  {
    if s.choices.None? {
      if s.table.NoTable? {
        MapExact(env, name, s);
      } else if IsRef(s.table.fields) {
        RefExact(env, name, s);
      } else {
        FieldsSound(env, name, s, depth);
      }
    }
  }

  /** Whatever `build_example` returns satisfies its schema exactly when the schema meets the
      condition; in particular a value built for a sound schema always validates. */
  lemma {:induction false} SoundExact(env: Env, name: string, s: Schema, depth: nat, required: bool)
    requires Sensible(env.names) && Coherent(env.regex) && Proper(s)
    requires Build(env, name, s, depth, required).Some?
    ensures Validates(env.regex, Build(env, name, s, depth, required).value, s)
            <==> Sound(env, name, s, depth, required)
    decreases s
  {
    match s.ty
    case Str => TextExact(env, name, s, required);
    case Int => NumberExact(env, name, s);
    case Num => NumberExact(env, name, s);
    case Bool =>
    case Arr =>
      SoundExact(env, name, s.items.schema, depth + 1, true);
      ArrayExact(env, name, s, depth, required);
    case Obj =>
      if s.table.Table? {
        forall f | f in s.table.fields && Child(env, f, s.required, depth).Some?
          ensures Validates(env.regex, Child(env, f, s.required, depth).value, f.schema)
                  <==> Sound(env, f.name, f.schema, depth + 1, f.name in s.required)
        {
          SoundExact(env, f.name, f.schema, depth + 1, f.name in s.required);
        }
      }
      ObjectExact(env, name, s, depth, required);
    case Missing =>
    case Other(_) =>
  }

  /** A required id is fitted twice, once as a sample and once as a value; that equals fitting it once
      except when cutting it loses its match. */
  lemma RequiredIdExact(env: Env, name: string, s: Schema)
    requires s.ty == Str && s.choices.None? && IsIdField(env, name)
    ensures var id := env.names.idSample(env.names.lower(name));
            Build(env, name, s, 0, true) == Some(JStr(Fit(env.regex, env.stock, id, s)))
            <==> !CutLosesMatch(env.regex, env.stock, id, s)
  {
    FitTwiceExact(env.regex, env.stock, env.names.idSample(env.names.lower(name)), s);
  }

  // ── Inputs that fail ────────────────────────────────────────────────────────

  ghost predicate Fails(env: Env, name: string, s: Schema) {
    var v := Build(env, name, s, 0, true);
    v.Some? && !Validates(env.regex, v.value, s)
  }

  const FLAG := ANY.(ty := Bool)
  const UNCUT := ANY.(ty := Str, maxLength := Some(0))
  const FRACTION := ANY.(ty := Num, minimum := Some(1.5))
  const NARROW := ANY.(ty := Num, minimum := Some(0.0), maximum := Some(0.5))
  const LISTED := ANY.(ty := Int, minimum := Some(0.0), choices := Some([JNum(2.0)]))
  const ARN_ONLY := ANY.(ty := Obj, table := Table([Field("arn", ANY.(ty := Str))]))
  const UNTYPED_CHILD := ANY.(ty := Obj, table := Table([Field("x", ANY), Field("b", FLAG)]), required := ["x"])
  const CUT_DOMAIN := ANY.(ty := Str, pattern := "example.com", maxLength := Some(7))

  // Patterns without special characters.
  const LITERAL := Regex(_ => true, (p: string, t: string) => t == p, (p: string, t: string) => Contains(t, p))

  /** A zero `maxLength`, a fractional minimum, a `maximum` below 1, and an `enum` of numbers. */
  lemma ScalarsFail(env: Env, name: string)
    ensures Fails(env, name, UNCUT) || !Sensible(env.names)
    ensures Fails(env, name, FRACTION) && Fails(env, name, NARROW) && Fails(env, name, LISTED)
  {
    if Sensible(env.names) {
      FitLengthExact(env.regex, env.stock, SampleText(env, name, UNCUT, true), UNCUT);
    }
  }

  /** A reference that does not declare `name`. */
  lemma BareReferenceFails(env: Env, name: string)
    ensures Fails(env, name, ARN_ONLY)
  {
    assert REF_KEYS[1] == "arn" != "name";
    FindExact(ARN_ONLY.table.fields, "name");
    assert Governing(ARN_ONLY, "name").None?;
    var ms := [Member("name", JStr(RefName(env, name)))];
    assert ms[0] in ms;
  }

  lemma UntypedChildBuild(env: Env, name: string)
    ensures Build(env, name, UNTYPED_CHILD, 0, true)
            == Some(JObj([Member("b", JBool(env.names.switch(env.names.lower("b"))))]))
  {
    var x, b := Field("x", ANY), Field("b", FLAG);
    assert UNTYPED_CHILD.table.fields == [x, b] && x in [x, b];
    assert x.name !in REF_KEYS && !IsRef(UNTYPED_CHILD.table.fields);
    assert [x, b][..1] == [x] && [x][..0] == [];
    assert BuildFields(env, [x], ["x"], 0) == [] + [];
    assert BuildFields(env, [x, b], ["x"], 0) == [Member("b", JBool(env.names.switch(env.names.lower("b"))))];
  }

  /** A required field whose node has no type and so yields nothing. */
  lemma MissingChildFails(env: Env, name: string)
    ensures Fails(env, name, UNTYPED_CHILD)
  {
    UntypedChildBuild(env, name);
    assert "x" in UNTYPED_CHILD.required;
  }

  /** A pattern met by a stock text that then has to be cut. */
  lemma CutPatternFails(env: Env, name: string)
    requires env.regex == LITERAL && "example.com" in env.stock
    ensures Fails(env, name, CUT_DOMAIN)
  {
    var sample := SampleText(env, name, CUT_DOMAIN, true);
    FirstMatchIsFirst(env.regex, env.stock, "example.com");
    assert Pick(env.regex, env.stock, sample, CUT_DOMAIN) == "example.com";
    ShorterCannotContain("example.com"[..7], "example.com");
  }

  lemma {:induction false} ShorterCannotContain(s: string, t: string)
    requires |s| < |t|
    ensures !Contains(s, t)
  {
    if s == "" {
    } else {
      ShorterCannotContain(s[1..], t);
    }
  }

  /** Each of these builds a value that its schema rejects. */
  lemma FailingInputs(env: Env, name: string)
    requires Sensible(env.names)
    ensures forall s | s in [UNCUT, FRACTION, NARROW, LISTED, ARN_ONLY, UNTYPED_CHILD] :: Fails(env, name, s)
    ensures env.regex == LITERAL && "example.com" in env.stock ==> Fails(env, name, CUT_DOMAIN)
  {
    ScalarsFail(env, name);
    BareReferenceFails(env, name);
    MissingChildFails(env, name);
    if env.regex == LITERAL && "example.com" in env.stock { CutPatternFails(env, name); }
  }
}
