/** The values that `build_example` returns, described case by case without building them. */
module ExampleValues {
  import opened Options
  import opened Text
  import opened Schemas
  import opened Fitting
  import opened Example

  // ── Scalars ─────────────────────────────────────────────────────────────────

  /** The text of a string without `enum`: a rule that fits the name, else an id sample for ids, which
      is fitted twice, else a time, else the plain word. */
  ghost predicate PortraysText(env: Env, t: string, name: string, s: Schema) {
    var low, rule := env.names.lower(name), env.names.fixed(env.names.lower(name), env.names.lower(env.kind));
    var isId := exists stem :: low == stem + "id";
    && (rule.Some? ==> t == Fit(env.regex, env.stock, rule.value, s))
    && (rule.None? && isId ==> t == Fit(env.regex, env.stock, Fit(env.regex, env.stock, env.names.idSample(low), s), s))
    && (rule.None? && !isId && (env.names.timed(low) || s.dateTime) ==>
          t == Fit(env.regex, env.stock, "2026-01-01T00:00:00Z", s))
    && (rule.None? && !isId && !env.names.timed(low) && !s.dateTime ==> t == Fit(env.regex, env.stock, "example", s))
  }

  /** The whole part of a minimum of at least 1, and 1 for smaller ones. */
  ghost predicate PortraysNumber(env: Env, n: real, name: string, s: Schema) {
    match s.minimum
    case None => n == env.names.count(env.names.lower(name)) as real
    case Some(least) => if least < 1.0 then n == 1.0 else n == n.Floor as real && n <= least < n + 1.0
  }

  // ── Objects without fields of their own ─────────────────────────────────────

  /** A map of texts shows an entry, or two tags when it is called so; any other map is empty. */
  ghost predicate PortraysMap(env: Env, ms: seq<Member>, name: string, s: Schema) {
    var ofTexts := s.extra.Values? && s.extra.schema.ty == Str;
    var tags := exists a, b :: env.names.lower(name) == a + "tag" + b;
    && (ofTexts && tags ==> ms == [Member("environment", JStr("dev")), Member("team", JStr("platform"))])
    && (ofTexts && !tags ==> ms == [Member("key", JStr("value"))])
    && (!ofTexts ==> ms == [])
  }

  ghost predicate NamesResource(fields: seq<Field>) {
    fields != [] && forall f | f in fields :: f.name == "name" || f.name == "arn" || f.name == "id" || f.name == "namespace"
  }

  /** A reference shows its own name without the ending `ref`. */
  ghost predicate PortraysRef(env: Env, ms: seq<Member>, name: string) {
    var low := env.names.lower(name);
    && |ms| == 1 && ms[0].key == "name" && ms[0].value.JStr?
    && (forall stem :: low == stem + "ref" ==> ms[0].value.text == "example-" + stem)
    && ((forall stem :: low != stem + "ref") ==> ms[0].value.text == "example-" + low)
  }

  // ── Trees ───────────────────────────────────────────────────────────────────

  /** `v` is the example of a node that is not omitted. */
  ghost predicate Portrays(env: Env, v: Json, name: string, s: Schema, depth: nat, required: bool)
    decreases s
  {
    match s.ty
    case Str => if s.choices.Some? then v == s.choices.value[0] else v.JStr? && PortraysText(env, v.text, name, s)
    case Int => v.JNum? && PortraysNumber(env, v.number, name, s)
    case Num => v.JNum? && PortraysNumber(env, v.number, name, s)
    case Bool => v == JBool(env.names.switch(env.names.lower(name)))
    case Arr =>
      && s.items.Items? && v.JArr?
      && 1 <= |v.elements| && s.minItems <= |v.elements| && (|v.elements| == 1 || |v.elements| == s.minItems)
      && (forall x | x in v.elements :: x == v.elements[0])
      && Portrays(env, v.elements[0], name, s.items.schema, depth + 1, true)
    case Obj =>
      && v.JObj?
      && (if s.table.NoTable? then PortraysMap(env, v.members, name, s)
          else if NamesResource(s.table.fields) then PortraysRef(env, v.members, name)
          else v.members != [] && PortraysMembers(env, v.members, s.table.fields, s.required, depth))
    case Missing => false
    case Other(_) => false
  }

  /** An optional object is not shown below depth 3, nor is a field that yields nothing. */
  ghost predicate Shown(env: Env, f: Field, required: seq<string>, depth: nat) {
    && (f.name in required || f.schema.ty != Obj || depth <= 2)
    && Produces(env, f.name, f.schema, depth + 1, f.name in required)
  }

  /** The members are those of the shown fields, in order. */
  ghost predicate PortraysMembers(env: Env, ms: seq<Member>, fields: seq<Field>, required: seq<string>, depth: nat)
    decreases fields
  {
    if fields == [] then ms == []
    else
      var init, f := fields[..|fields| - 1], fields[|fields| - 1];
      if !Shown(env, f, required, depth) then PortraysMembers(env, ms, init, required, depth)
      else
        && ms != [] && ms[|ms| - 1].key == f.name
        && Portrays(env, ms[|ms| - 1].value, f.name, f.schema, depth + 1, f.name in required)
        && PortraysMembers(env, ms[..|ms| - 1], init, required, depth)
  }

  // ── The theorem ─────────────────────────────────────────────────────────────

  lemma {:induction false} ContainsExact(s: string, t: string)
    ensures Contains(s, t) <==> exists a, b :: s == a + t + b
  {
    if Contains(s, t) {
      var a, b := Around(s, t);
    }
    if a, b :| s == a + t + b {
      Inside(a, t, b);
    }
  }

  lemma {:induction false} Around(s: string, t: string) returns (a: string, b: string)
    requires Contains(s, t)
    ensures s == a + t + b
  {
    if StartsWith(s, t) {
      a, b := "", s[|t|..];
    } else {
      var a', b' := Around(s[1..], t);
      a, b := [s[0]] + a', b';
      assert s == [s[0]] + s[1..];
    }
  }

  lemma {:induction false} Inside(a: string, t: string, b: string)
    ensures Contains(a + t + b, t)
  {
    if a == "" {
      assert a + t + b == t + b;
    } else {
      Inside(a[1..], t, b);
      assert (a + t + b)[1..] == a[1..] + t + b;
    }
  }

  lemma EndsExact(s: string, t: string)
    ensures EndsWith(s, t) <==> exists stem :: s == stem + t
    ensures forall stem | s == stem + t :: s[..|s| - |t|] == stem
  {
    if EndsWith(s, t) { assert s == s[..|s| - |t|] + t; }
  }

  lemma RefKeysExact(fields: seq<Field>)
    ensures IsRef(fields) <==> NamesResource(fields)
  {
    assert REF_KEYS[0] == "name" && REF_KEYS[1] == "arn" && REF_KEYS[2] == "id" && REF_KEYS[3] == "namespace";
  }

  lemma TextPortrayed(env: Env, t: string, name: string, s: Schema, required: bool)
    requires Sensible(env.names) && s.ty == Str && s.choices.None?
    ensures BuildText(env, name, s, required) == Some(JStr(t))
       <==> (required || !IsIdField(env, name)) && PortraysText(env, t, name, s)
  {
    EndsExact(env.names.lower(name), "id");
  }

  lemma NumberPortrayed(env: Env, n: real, name: string, s: Schema)
    ensures SampleInt(env, name, s) as real == n <==> PortraysNumber(env, n, name, s)
  {
    if s.minimum.Some? && s.minimum.value >= 1.0 {
      FloorExact(s.minimum.value, n);
    }
  }

  lemma FloorExact(x: real, n: real)
    requires x >= 1.0
    ensures FromMinimum(x) as real == n <==> n == n.Floor as real && n <= x < n + 1.0
  {
    var k := x.Floor;
    assert k as real <= x < k as real + 1.0;
    assert FromMinimum(x) == k;
    if n == n.Floor as real && n <= x < n + 1.0 {
      assert n.Floor == k;
    }
  }

  lemma MapPortrayed(env: Env, ms: seq<Member>, name: string, s: Schema)
    ensures BuildMap(env, name, s) == ms <==> PortraysMap(env, ms, name, s)
  {
    ContainsExact(env.names.lower(name), "tag");
  }

  lemma RefPortrayed(env: Env, ms: seq<Member>, name: string)
    ensures [Member("name", JStr(RefName(env, name)))] == ms <==> PortraysRef(env, ms, name)
  {
    var low := env.names.lower(name);
    EndsExact(low, "ref");
    if EndsWith(low, "ref") { assert low == low[..|low| - 3] + "ref"; }
  }

  /** A call returns `v` exactly when the node is not omitted and `v` is the value described. */
  lemma {:induction false} ExampleExact(env: Env, v: Json, name: string, s: Schema, depth: nat, required: bool)
    requires Sensible(env.names)
    ensures Build(env, name, s, depth, required) == Some(v)
       <==> Produces(env, name, s, depth, required) && Portrays(env, v, name, s, depth, required)
    decreases s
  {
    OmissionExact(env, name, s, depth, required);
    match s.ty
    case Str => if s.choices.None? && v.JStr? { TextPortrayed(env, v.text, name, s, required); }
    case Int => if v.JNum? { NumberPortrayed(env, v.number, name, s); }
    case Num => if v.JNum? { NumberPortrayed(env, v.number, name, s); }
    case Arr => ListPortrayed(env, v, name, s, depth, required);
    case Obj =>
      if v.JObj? {
        if s.table.NoTable? { MapPortrayed(env, v.members, name, s); }
        else { ObjectPortrayed(env, v, name, s, depth, required); }
      }
    case _ =>
  }

  lemma SameCopies(xs: seq<Json>, n: nat)
    requires |xs| == n > 0 && forall x | x in xs :: x == xs[0]
    ensures xs == Copies(xs[0], n)
  {
    var copies := Copies(xs[0], n);
    forall i | 0 <= i < n ensures xs[i] == copies[i] {
      assert xs[i] in xs && copies[i] in copies;
    }
  }

  lemma {:induction false} ListPortrayed(env: Env, v: Json, name: string, s: Schema, depth: nat, required: bool)
    requires Sensible(env.names) && s.ty == Arr
    ensures Build(env, name, s, depth, required) == Some(v)
       <==> Produces(env, name, s, depth, required) && Portrays(env, v, name, s, depth, required)
    decreases s, 0
  {
    if s.items.Items? && v.JArr? && v.elements != [] {
      ExampleExact(env, v.elements[0], name, s.items.schema, depth + 1, true);
      OmissionExact(env, name, s.items.schema, depth + 1, true);
      assert v.elements[0] in v.elements;
      if |v.elements| == CopyCount(s) && forall x | x in v.elements :: x == v.elements[0] {
        SameCopies(v.elements, CopyCount(s));
      }
    }
  }

  lemma {:induction false} ObjectPortrayed(env: Env, v: Json, name: string, s: Schema, depth: nat, required: bool)
    requires Sensible(env.names) && s.ty == Obj && s.table.Table? && v.JObj?
    ensures Build(env, name, s, depth, required) == Some(v)
       <==> Produces(env, name, s, depth, required) && Portrays(env, v, name, s, depth, required)
    decreases s, 0
  {
    OmissionExact(env, name, s, depth, required);
    RefKeysExact(s.table.fields);
    if IsRef(s.table.fields) {
      RefPortrayed(env, v.members, name);
    } else {
      MembersPortrayed(env, v.members, s.table.fields, s.required, depth);
    }
  }

  lemma {:induction false} MembersPortrayed(env: Env, ms: seq<Member>, fields: seq<Field>, required: seq<string>, depth: nat)
    requires Sensible(env.names)
    ensures BuildFields(env, fields, required, depth) == ms <==> PortraysMembers(env, ms, fields, required, depth)
    decreases fields
  {
    if fields == [] {
    } else {
      var init, f := fields[..|fields| - 1], fields[|fields| - 1];
      OmissionExact(env, f.name, f.schema, depth + 1, f.name in required);
      if Shown(env, f, required, depth) && ms != [] {
        var last := ms[|ms| - 1];
        MembersPortrayed(env, ms[..|ms| - 1], init, required, depth);
        ExampleExact(env, last.value, f.name, f.schema, depth + 1, f.name in required);
        assert ms == ms[..|ms| - 1] + [last];
      } else {
        MembersPortrayed(env, ms, init, required, depth);
      }
    }
  }
}
