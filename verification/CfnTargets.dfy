/** What `fromCFN` leaves in a target that already holds values: what each kind of document sets, and
    what a document does not mention. */
module CfnTargets {
  import opened Options
  import opened Cfn
  import opened CfnRoundTrip

  /** The value that a new target holds: empty, false, nil, or a struct of such values. */
  predicate IsZero(v: Value)
    decreases v
  {
    match v
    case VString(t) => t == ""
    case VBool(b) => !b
    case VInt(i) => i == 0
    case VFloat(n) => n == 0.0
    case VJson(raw) => raw == ""
    case VNil => true
    case VOther => true
    case VStruct(vals) => forall i | 0 <= i < |vals| :: IsZero(vals[i])
    case _ => false
  }

  lemma {:induction false} ZeroExact(v: Value, ty: Type)
    requires HasType(v, ty)
    ensures v == Zero(ty) <==> IsZero(v)
    decreases ty
  {
    match ty
    case StructT(fs) => ZerosExact(v.fields, fs);
    case _ =>
  }

  lemma {:induction false} ZerosExact(vals: seq<Value>, fs: seq<FieldT>)
    requires HaveTypes(vals, fs)
    ensures vals == Zeros(fs) <==> forall i | 0 <= i < |vals| :: IsZero(vals[i])
    decreases fs
  {
    if fs == [] {
    } else {
      var n := |fs| - 1;
      ZerosExact(vals[..n], fs[..n]);
      ZeroExact(vals[n], fs[n].ty);
      assert vals == vals[..n] + [vals[n]];
      assert Zeros(fs)[..n] == Zeros(fs[..n]) && Zeros(fs)[n] == Zero(fs[n].ty);
    }
  }

  /** A scalar takes any document that can be converted: a text takes numbers, flags and other JSON in
      printed form, and flags and numbers take texts. */
  predicate TakesScalar(c: Codec, src: Doc, after: Value, ty: Type) {
    match (ty, src)
    case (StringT, DStr(t)) => after == VString(t)
    case (StringT, DNum(n)) => after == VString(c.showNum(n))
    case (StringT, DBool(true)) => after == VString("true")
    case (StringT, DBool(false)) => after == VString("false")
    case (StringT, _) => after == VString(c.write(src))
    case (BoolT, DBool(b)) => after == VBool(b)
    case (BoolT, DStr(t)) => after == VBool(t == "true")
    case (IntT, DNum(n)) => after == VInt(c.toInt(n))
    case (IntT, DStr(t)) => c.readInt(t).Some? && after == VInt(c.readInt(t).value)
    case (FloatT, DNum(n)) => after == VFloat(n)
    case (FloatT, DStr(t)) => c.readNum(t).Some? && after == VFloat(c.readNum(t).value)
    case (JsonT, _) => after == VJson(c.write(src))
    case _ => false
  }

  /** `after` is `old` after `src` has been read into it: null changes nothing, a nil pointer starts
      from zero, lists and maps are replaced, and structs are changed field by field. */
  ghost predicate Becomes(c: Codec, src: Doc, before: Value, after: Value, ty: Type)
    requires HasType(before, ty)
    decreases ty, 0
  {
    if src == DNull then after == before
    else match ty
      case PtrT(e) => after.VPtr? && Becomes(c, src, if before.VNil? then Zero(e) else before.target, after.target, e)
      case SliceT(e) =>
        && src.DArr? && after.VSlice? && |after.items| == |src.elements|
        && forall i | 0 <= i < |src.elements| :: Becomes(c, src.elements[i], Zero(e), after.items[i], e)
      case MapT(e) =>
        && src.DObj? && after.VMap? && after.entries.Keys == src.props.Keys
        && forall k | k in src.props :: Becomes(c, src.props[k], Zero(e), after.entries[k], e)
      case StructT(fs) =>
        src.DObj? && after.VStruct? && FieldsBecome(c, src.props, before.fields, after.fields, fs)
      case _ => TakesScalar(c, src, after, ty)
  }

  ghost predicate FieldsBecome(c: Codec, props: map<string, Doc>, befores: seq<Value>, afters: seq<Value>, fs: seq<FieldT>)
    requires HaveTypes(befores, fs)
    decreases fs, 0
  {
    |afters| == |fs| && forall i | 0 <= i < |fs| :: FieldBecomes(c, props, befores[i], afters[i], fs[i])
  }

  /** A field whose property is absent stays, and so does an untagged one; an embedded struct takes
      the properties of the struct around it. */
  ghost predicate FieldBecomes(c: Codec, props: map<string, Doc>, before: Value, after: Value, f: FieldT)
    requires HasType(before, f.ty)
    decreases f, 0
  {
    if f.tag in props && f.tag != "" then Becomes(c, props[f.tag], before, after, f.ty)
    else if f.tag == "" && f.embedded then Becomes(c, DObj(props), before, after, f.ty)
    else after == before
  }

  /** Reading gives exactly what these rules say, and fails when no value follows them. */
  lemma {:induction false} ReadExact(c: Codec, src: Doc, before: Value, after: Value, ty: Type)
    requires HasType(before, ty)
    ensures From(c, src, before, ty) == Some(after) <==> Becomes(c, src, before, after, ty)
    decreases ty, 0
  {
    if src == DNull {
    } else {
      match ty
      case PtrT(e) => ReadPointerExact(c, src, before, after, e);
      case SliceT(e) => ReadListExact(c, src, before, after, e);
      case MapT(e) => ReadDictExact(c, src, before, after, e);
      case StructT(fs) => ReadStructExact(c, src, before, after, fs);
      case _ => ReadScalarExact(c, src, before, after, ty);
    }
  }

  lemma ReadScalarExact(c: Codec, src: Doc, before: Value, after: Value, ty: Type)
    requires HasType(before, ty) && src != DNull
    requires !ty.PtrT? && !ty.SliceT? && !ty.MapT? && !ty.StructT?
    ensures From(c, src, before, ty) == Some(after) <==> TakesScalar(c, src, after, ty)
  {
  }

  lemma {:induction false} ReadPointerExact(c: Codec, src: Doc, before: Value, after: Value, e: Type)
    requires HasType(before, PtrT(e)) && src != DNull
    ensures From(c, src, before, PtrT(e)) == Some(after) <==> Becomes(c, src, before, after, PtrT(e))
    decreases e, 2
  {
    if after.VPtr? { ReadExact(c, src, if before.VNil? then Zero(e) else before.target, after.target, e); }
  }

  lemma {:induction false} ReadDictExact(c: Codec, src: Doc, before: Value, after: Value, e: Type)
    requires HasType(before, MapT(e)) && src != DNull
    ensures From(c, src, before, MapT(e)) == Some(after) <==> Becomes(c, src, before, after, MapT(e))
    decreases e, 2
  {
    if src.DObj? && after.VMap? { ReadMapExact(c, src.props, before, after.entries, e); }
  }

  lemma {:induction false} ReadListExact(c: Codec, src: Doc, before: Value, after: Value, e: Type)
    requires HasType(before, SliceT(e)) && src != DNull
    ensures From(c, src, before, SliceT(e)) == Some(after) <==> Becomes(c, src, before, after, SliceT(e))
    decreases e, 2
  {
    if src.DArr? && after.VSlice? { ReadItemsExact(c, src.elements, after.items, e); }
  }

  lemma {:induction false} ReadStructExact(c: Codec, src: Doc, before: Value, after: Value, fs: seq<FieldT>)
    requires HasType(before, StructT(fs)) && src != DNull
    ensures From(c, src, before, StructT(fs)) == Some(after) <==> Becomes(c, src, before, after, StructT(fs))
    decreases fs, 1
  {
    if src.DObj? && after.VStruct? { ReadFieldsExact(c, src.props, before.fields, after.fields, fs); }
  }

  ghost predicate ItemsBecome(c: Codec, ds: seq<Doc>, afters: seq<Value>, e: Type) {
    |afters| == |ds| && forall i | 0 <= i < |ds| :: Becomes(c, ds[i], Zero(e), afters[i], e)
  }

  lemma {:induction false} ReadItemsExact(c: Codec, ds: seq<Doc>, afters: seq<Value>, e: Type)
    ensures FromItems(c, ds, e) == Some(afters) <==> ItemsBecome(c, ds, afters, e)
    decreases e, 1, |ds|
  {
    if ds == [] || afters == [] {
    } else {
      var n := |ds| - 1;
      var m := |afters| - 1;
      ReadItemsExact(c, ds[..n], afters[..m], e);
      ReadExact(c, ds[n], Zero(e), afters[m], e);
      assert ds == ds[..n] + [ds[n]];
      ReadItemsEnd(c, ds[..n], ds[n], afters, e);
    }
  }

  lemma {:induction false} ReadMapExact(c: Codec, m: map<string, Doc>, before: Value, entries: map<string, Value>, e: Type)
    requires HasType(before, MapT(e))
    ensures From(c, DObj(m), before, MapT(e)) == Some(VMap(entries))
       <==> m.Keys == entries.Keys && forall k | k in m :: Becomes(c, m[k], Zero(e), entries[k], e)
    decreases e, 1
  {
    if m.Keys == entries.Keys {
      forall k | k in m
        ensures From(c, m[k], Zero(e), e) == Some(entries[k]) <==> Becomes(c, m[k], Zero(e), entries[k], e)
      {
        ReadExact(c, m[k], Zero(e), entries[k], e);
      }
      ReadEntries(c, m, before, entries, e);
    }
  }

  lemma {:induction false} ReadFieldsExact(c: Codec, m: map<string, Doc>, befores: seq<Value>, afters: seq<Value>, fs: seq<FieldT>)
    requires HaveTypes(befores, fs)
    ensures FromFields(c, m, befores, fs) == Some(afters) <==> FieldsBecome(c, m, befores, afters, fs)
    decreases fs, 0
  {
    if fs == [] || |afters| != |fs| {
    } else {
      var n := |fs| - 1;
      ReadFieldsExact(c, m, befores[..n], afters[..n], fs[..n]);
      ReadFieldExact(c, m, befores[n], afters[n], fs[n]);
      FieldsReadEnd(c, m, befores, afters, fs);
      FieldsBecomeEnd(c, m, befores, afters, fs);
    }
  }

  lemma FieldsReadEnd(c: Codec, m: map<string, Doc>, befores: seq<Value>, afters: seq<Value>, fs: seq<FieldT>)
    requires HaveTypes(befores, fs) && fs != [] && |afters| == |fs|
    ensures var n := |fs| - 1;
      FromFields(c, m, befores, fs) == Some(afters)
      <==> FromFields(c, m, befores[..n], fs[..n]) == Some(afters[..n])
           && FromField(c, m, befores[n], fs[n]) == Some(afters[n])
  {
    var n := |fs| - 1;
    assert afters == afters[..n] + [afters[n]];
    match (FromFields(c, m, befores[..n], fs[..n]), FromField(c, m, befores[n], fs[n]))
    case (Some(vs), Some(v)) =>
      assert (vs + [v])[..n] == vs && (vs + [v])[n] == v;
    case _ =>
  }

  lemma FieldsBecomeEnd(c: Codec, m: map<string, Doc>, befores: seq<Value>, afters: seq<Value>, fs: seq<FieldT>)
    requires HaveTypes(befores, fs) && fs != [] && |afters| == |fs|
    ensures var n := |fs| - 1;
      FieldsBecome(c, m, befores, afters, fs)
      <==> FieldsBecome(c, m, befores[..n], afters[..n], fs[..n]) && FieldBecomes(c, m, befores[n], afters[n], fs[n])
  {
    var n := |fs| - 1;
    forall i | 0 <= i < n
      ensures FieldBecomes(c, m, befores[..n][i], afters[..n][i], fs[..n][i]) <==> FieldBecomes(c, m, befores[i], afters[i], fs[i])
    {
      assert befores[..n][i] == befores[i] && afters[..n][i] == afters[i] && fs[..n][i] == fs[i];
    }
  }

  lemma {:induction false} ReadFieldExact(c: Codec, m: map<string, Doc>, before: Value, after: Value, f: FieldT)
    requires HasType(before, f.ty)
    ensures FromField(c, m, before, f) == Some(after) <==> FieldBecomes(c, m, before, after, f)
    decreases f, 0
  {
    if f.tag != "" && f.tag in m {
      ReadExact(c, m[f.tag], before, after, f.ty);
    } else if f.tag == "" && f.embedded {
      ReadExact(c, DObj(m), before, after, f.ty);
    }
  }

  // ── What a document does not mention ────────────────────────────────────────

  /** Whatever the document does not set is as before, at every depth: untagged fields, fields whose
      property is absent or null, and these again inside nested and embedded structs. A struct behind
      a nil pointer starts from zero. */
  ghost predicate Undisturbed(src: Doc, before: Value, after: Value, ty: Type)
    requires HasType(before, ty)
    decreases ty
  {
    if src == DNull then after == before
    else match ty
      case PtrT(e) => after.VPtr? && Undisturbed(src, if before.VNil? then Zero(e) else before.target, after.target, e)
      case StructT(fs) =>
        && src.DObj? && after.VStruct? && |after.fields| == |fs|
        && FieldsUndisturbed(src.props, before.fields, after.fields, fs)
      case _ => true
  }

  ghost predicate FieldsUndisturbed(props: map<string, Doc>, befores: seq<Value>, afters: seq<Value>, fs: seq<FieldT>)
    requires HaveTypes(befores, fs) && |afters| == |fs|
    decreases fs
  {
    forall i | 0 <= i < |fs| :: FieldUndisturbed(props, befores[i], afters[i], fs[i])
  }

  ghost predicate FieldUndisturbed(props: map<string, Doc>, before: Value, after: Value, f: FieldT)
    requires HasType(before, f.ty)
    decreases f
  {
    && (f.tag == "" && !f.embedded ==> after == before)
    && (f.tag == "" && f.embedded ==> Undisturbed(DObj(props), before, after, f.ty))
    && (f.tag != "" && f.tag !in props ==> after == before)
    && (f.tag != "" && f.tag in props ==> Undisturbed(props[f.tag], before, after, f.ty))
  }

  lemma {:induction false} FrameKept(c: Codec, src: Doc, before: Value, ty: Type)
    requires HasType(before, ty) && From(c, src, before, ty).Some?
    ensures Undisturbed(src, before, From(c, src, before, ty).value, ty)
    decreases ty
  {
    if src == DNull {
    } else {
      match ty
      case PtrT(e) => FrameKept(c, src, if before.VNil? then Zero(e) else before.target, e);
      case StructT(fs) => FieldsKept(c, src.props, before.fields, fs);
      case _ =>
    }
  }

  lemma {:induction false} FieldsKept(c: Codec, m: map<string, Doc>, befores: seq<Value>, fs: seq<FieldT>)
    requires HaveTypes(befores, fs) && FromFields(c, m, befores, fs).Some?
    ensures FieldsUndisturbed(m, befores, FromFields(c, m, befores, fs).value, fs)
    decreases fs
  {
    if fs == [] {
    } else {
      var n := |fs| - 1;
      FieldsKept(c, m, befores[..n], fs[..n]);
      FieldKept(c, m, befores[n], fs[n]);
      FieldsUndisturbedEnd(m, befores, FromFields(c, m, befores, fs).value, fs);
      var vs := FromFields(c, m, befores[..n], fs[..n]).value;
      assert FromFields(c, m, befores, fs).value[..n] == vs;
    }
  }

  lemma FieldsUndisturbedEnd(m: map<string, Doc>, befores: seq<Value>, afters: seq<Value>, fs: seq<FieldT>)
    requires HaveTypes(befores, fs) && fs != [] && |afters| == |fs|
    ensures var n := |fs| - 1;
      FieldsUndisturbed(m, befores, afters, fs)
      <==> FieldsUndisturbed(m, befores[..n], afters[..n], fs[..n]) && FieldUndisturbed(m, befores[n], afters[n], fs[n])
  {
    var n := |fs| - 1;
    forall i | 0 <= i < n
      ensures FieldUndisturbed(m, befores[..n][i], afters[..n][i], fs[..n][i]) <==> FieldUndisturbed(m, befores[i], afters[i], fs[i])
    {
      assert befores[..n][i] == befores[i] && afters[..n][i] == afters[i] && fs[..n][i] == fs[i];
    }
  }

  lemma {:induction false} FieldKept(c: Codec, m: map<string, Doc>, before: Value, f: FieldT)
    requires HasType(before, f.ty) && FromField(c, m, before, f).Some?
    ensures FieldUndisturbed(m, before, FromField(c, m, before, f).value, f)
    decreases f
  {
    if f.tag != "" && f.tag in m {
      FrameKept(c, m[f.tag], before, f.ty);
    } else if f.tag == "" && f.embedded {
      FrameKept(c, DObj(m), before, f.ty);
    }
  }

  /** Filling a spec or a status from a document leaves every field alone whose property is absent or
      null, and every field without a tag. */
  lemma UnmentionedKept(c: Codec, doc: Doc, befores: seq<Value>, fs: seq<FieldT>, i: nat)
    requires HaveTypes(befores, fs) && i < |fs| && FromProperties(c, doc, befores, fs).Some?
    requires if fs[i].tag == "" then !fs[i].embedded
             else doc == DNull || (doc.DObj? && (fs[i].tag !in doc.props || doc.props[fs[i].tag] == DNull))
    ensures FromProperties(c, doc, befores, fs).value[i] == befores[i]
  {
    if doc != DNull {
      assert From(c, doc, VStruct(befores), StructT(fs)).Some?;
      ReadsStruct(c, doc.props, befores, fs);
      FieldsKept(c, doc.props, befores, fs);
      var after := FromFields(c, doc.props, befores, fs).value[i];
      assert FieldUndisturbed(doc.props, befores[i], after, fs[i]);
      if fs[i].tag in doc.props && fs[i].tag != "" {
        assert Undisturbed(DNull, befores[i], after, fs[i].ty);
      }
    }
  }
}
