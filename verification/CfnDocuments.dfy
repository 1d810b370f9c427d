/** The documents that `toCFN` writes, described property by property: which values cannot be written,
    which document stands for a value, and that nothing else is written. */
module CfnDocuments {
  import opened Options
  import opened Cfn
  import opened CfnRoundTrip

  // ── What fails ──────────────────────────────────────────────────────────────

  /** The value holds, where it is written, something of an unsupported kind or raw JSON that does not
      parse. */
  ghost predicate Unwritable(c: Codec, v: Value, ty: Type)
    requires HasType(v, ty)
    decreases ty
  {
    match ty
    case OtherT => true
    case JsonT => v.raw != "" && c.parse(v.raw).None?
    case PtrT(e) => v.VPtr? && Unwritable(c, v.target, e)
    case SliceT(e) => v.VSlice? && exists i | 0 <= i < |v.items| :: Unwritable(c, v.items[i], e)
    case MapT(e) => v.VMap? && exists k | k in v.entries :: Unwritable(c, v.entries[k], e)
    case StructT(fs) => SomeUnwritable(c, v.fields, fs)
    case _ => false
  }

  ghost predicate SomeUnwritable(c: Codec, vals: seq<Value>, fs: seq<FieldT>)
    requires HaveTypes(vals, fs)
    decreases fs
  {
    exists i | 0 <= i < |fs| :: UnwritableField(c, vals[i], fs[i])
  }

  ghost predicate UnwritableField(c: Codec, v: Value, f: FieldT)
    requires HasType(v, f.ty)
    decreases f
  {
    (f.tag != "" || f.embedded) && Unwritable(c, v, f.ty)
  }

  /** Conversion reports an error exactly for such values. */
  lemma {:induction false} FailExact(c: Codec, v: Value, ty: Type)
    requires HasType(v, ty)
    ensures To(c, v, ty).Fail? <==> Unwritable(c, v, ty)
    decreases ty, 0
  {
    match ty
    case PtrT(e) => if v.VPtr? { FailExact(c, v.target, e); }
    case SliceT(e) => if v.VSlice? { ItemsFailExact(c, v.items, e); }
    case MapT(e) =>
      if v.VMap? {
        forall k | k in v.entries ensures To(c, v.entries[k], e).Fail? <==> Unwritable(c, v.entries[k], e) {
          FailExact(c, v.entries[k], e);
        }
      }
    case StructT(fs) => FieldsFailExact(c, v.fields, fs);
    case _ =>
  }

  lemma {:induction false} ItemsFailExact(c: Codec, vals: seq<Value>, e: Type)
    requires HaveType(vals, e)
    ensures ToItems(c, vals, e).None? <==> exists i | 0 <= i < |vals| :: Unwritable(c, vals[i], e)
    decreases e, 1, |vals|
  {
    if vals == [] {
    } else {
      var n := |vals| - 1;
      ItemsFailExact(c, vals[..n], e);
      FailExact(c, vals[n], e);
      if i :| 0 <= i < |vals| && Unwritable(c, vals[i], e) {
        assert i < n ==> vals[..n][i] == vals[i];
      }
    }
  }

  lemma {:induction false} FieldsFailExact(c: Codec, vals: seq<Value>, fs: seq<FieldT>)
    requires HaveTypes(vals, fs)
    ensures ToFields(c, vals, fs).None? <==> SomeUnwritable(c, vals, fs)
    decreases fs, 0
  {
    if fs == [] {
    } else {
      var n := |fs| - 1;
      FieldsFailExact(c, vals[..n], fs[..n]);
      FieldFailExact(c, vals[n], fs[n]);
      if i :| 0 <= i < |fs| && UnwritableField(c, vals[i], fs[i]) {
        assert i < n ==> vals[..n][i] == vals[i] && fs[..n][i] == fs[i];
      }
      if SomeUnwritable(c, vals[..n], fs[..n]) {
        var i :| 0 <= i < n && UnwritableField(c, vals[..n][i], fs[..n][i]);
        assert UnwritableField(c, vals[i], fs[i]);
      }
    }
  }

  lemma {:induction false} FieldFailExact(c: Codec, v: Value, f: FieldT)
    requires HasType(v, f.ty)
    ensures Added(c, v, f).None? <==> UnwritableField(c, v, f)
    decreases f, 0
  {
    FailExact(c, v, f.ty);
  }

  // ── What is written ─────────────────────────────────────────────────────────

  /** `d` stands for `v`: the same scalar, one rendered element per item or entry, and a property for
      each tagged field that is not empty. */
  ghost predicate Renders(c: Codec, d: Doc, v: Value, ty: Type)
    requires HasType(v, ty)
    decreases ty, 0
  {
    match ty
    case StringT => v.text != "" && d == DStr(v.text)
    case BoolT => d == DBool(v.flag)
    case IntT => d == DInt(v.whole)
    case FloatT => d == DNum(v.number)
    case JsonT => v.raw != "" && c.parse(v.raw) == Some(d) && d != DNull
    case OtherT => false
    case PtrT(e) => v.VPtr? && Renders(c, d, v.target, e)
    case SliceT(e) =>
      && v.VSlice? && v.items != []
      && d.DArr? && |d.elements| == |v.items|
      && forall i | 0 <= i < |v.items| :: RendersElement(c, d.elements[i], v.items[i], e)
    case MapT(e) =>
      && v.VMap? && v.entries != map[]
      && d.DObj? && d.props.Keys == v.entries.Keys
      && forall k | k in v.entries :: RendersElement(c, d.props[k], v.entries[k], e)
    case StructT(fs) =>
      && d.DObj? && d.props != map[] && d.props.Keys <= TagNames(fs)
      && RendersFields(c, d.props, v.fields, fs)
  }

  ghost predicate RendersFields(c: Codec, props: map<string, Doc>, vals: seq<Value>, fs: seq<FieldT>)
    requires HaveTypes(vals, fs)
    decreases fs, 0
  {
    forall i | 0 <= i < |fs| :: RendersField(c, props, vals[i], fs[i])
  }

  /** An empty element is written as the empty value of its kind. */
  ghost predicate RendersElement(c: Codec, d: Doc, v: Value, ty: Type)
    requires HasType(v, ty)
    decreases ty, 1
  {
    if Omitted(c, v, ty) then Blank(d, v, ty) else Renders(c, d, v, ty)
  }

  ghost predicate Blank(d: Doc, v: Value, ty: Type)
    requires HasType(v, ty)
    decreases ty
  {
    match ty
    case StringT => d == DStr("")
    case SliceT(_) => d == DArr([])
    case PtrT(e) => if v.VNil? then d == DNull else Blank(d, v.target, e)
    case JsonT => d == DObj(map[])
    case MapT(_) => d == DObj(map[])
    case StructT(_) => d == DObj(map[])
    case _ => d == DNull
  }

  /** An empty field has no property; an embedded struct has its properties among those of the struct
      around it. */
  ghost predicate RendersField(c: Codec, props: map<string, Doc>, v: Value, f: FieldT)
    requires HasType(v, f.ty)
    decreases f, 0
  {
    if f.tag != "" then
      if Omitted(c, v, f.ty) then f.tag !in props else f.tag in props && Renders(c, props[f.tag], v, f.ty)
    else f.embedded ==>
      match f.ty
      case StructT(gs) => RendersFields(c, props, v.fields, gs)
      case PtrT(e) => if v.VNil? then FieldNames(f) !! props.Keys else RendersPointee(c, props, v.target, e)
      case _ => true
  }

  ghost predicate RendersPointee(c: Codec, props: map<string, Doc>, v: Value, ty: Type)
    requires HasType(v, ty)
    decreases ty, 0
  {
    ty.StructT? ==> RendersFields(c, props, v.fields, ty.fields)
  }

  lemma {:induction false} OmittedWrites(c: Codec, v: Value, ty: Type)
    requires HasType(v, ty) && WellTagged(ty) && Omitted(c, v, ty)
    ensures To(c, v, ty).Omit?
    decreases ty
  {
    OmittedNoFail(c, v, ty);
    OmittedExact(c, v, ty);
  }

  lemma {:induction false} OmittedNoFail(c: Codec, v: Value, ty: Type)
    requires HasType(v, ty) && Omitted(c, v, ty)
    ensures !To(c, v, ty).Fail?
    decreases ty
  {
    match ty
    case PtrT(e) => if v.VPtr? { OmittedNoFail(c, v.target, e); }
    case StructT(fs) => FieldsNoFail(c, v.fields, fs);
    case _ =>
  }

  lemma {:induction false} FieldsNoFail(c: Codec, vals: seq<Value>, fs: seq<FieldT>)
    requires HaveTypes(vals, fs) && AllOmitted(c, vals, fs)
    ensures ToFields(c, vals, fs).Some?
    decreases fs
  {
    if fs == [] {
    } else {
      var n := |fs| - 1;
      FieldsNoFail(c, vals[..n], fs[..n]);
      if fs[n].tag != "" || fs[n].embedded { OmittedNoFail(c, vals[n], fs[n].ty); }
    }
  }

  function Restrict(m: map<string, Doc>, names: set<string>): map<string, Doc> {
    map k | k in m && k in names :: m[k]
  }

  lemma RestrictSplit(m: map<string, Doc>, own: map<string, Doc>, a: map<string, Doc>, names: set<string>, more: set<string>)
    requires own.Keys <= names && a.Keys <= more && names !! more
    ensures own + a == Restrict(m, names + more) <==> own == Restrict(m, names) && a == Restrict(m, more)
  {
    if own + a == Restrict(m, names + more) {
      forall k | k in names ensures k in own <==> k in Restrict(m, names) {
        assert k in own <==> k in own + a;
      }
      forall k | k in more ensures k in a <==> k in Restrict(m, more) {
        assert k in a <==> k in own + a;
      }
      assert forall k | k in own :: own[k] == (own + a)[k] == m[k];
      assert forall k | k in a :: a[k] == (own + a)[k] == m[k];
    }
    if own == Restrict(m, names) && a == Restrict(m, more) {
      assert own + a == Restrict(m, names + more);
    }
  }

  /** A value is written as `d` exactly when `d` stands for it. */
  lemma {:induction false} DocumentExact(c: Codec, v: Value, ty: Type, d: Doc)
    requires HasType(v, ty) && WellTagged(ty)
    ensures To(c, v, ty) == Give(d) <==> Renders(c, d, v, ty)
    decreases ty, 0
  {
    match ty
    case PtrT(e) => if v.VPtr? { DocumentExact(c, v.target, e, d); }
    case SliceT(e) => ListDocument(c, v, e, d);
    case MapT(e) => MapDocument(c, v, e, d);
    case StructT(fs) => StructDocument(c, v, fs, d);
    case _ =>
  }

  /** An element is written as `d` exactly when `d` stands for it, the empty value included. */
  lemma {:induction false} ElementDocument(c: Codec, v: Value, ty: Type, d: Doc)
    requires HasType(v, ty) && WellTagged(ty)
    ensures !To(c, v, ty).Fail? && Element(c, v, ty) == d <==> RendersElement(c, d, v, ty)
    decreases ty, 1
  {
    if Omitted(c, v, ty) {
      OmittedWrites(c, v, ty);
      BlankExact(c, v, ty, d);
    } else {
      DocumentExact(c, v, ty, d);
      if !To(c, v, ty).Fail? { OmittedExact(c, v, ty); }
    }
  }

  lemma {:induction false} BlankExact(c: Codec, v: Value, ty: Type, d: Doc)
    requires HasType(v, ty)
    ensures ZeroFor(v, ty) == d <==> Blank(d, v, ty)
    decreases ty
  {
    match ty
    case PtrT(e) => if v.VPtr? { BlankExact(c, v.target, e, d); }
    case _ =>
  }

  lemma {:induction false} ListDocument(c: Codec, v: Value, e: Type, d: Doc)
    requires HasType(v, SliceT(e)) && WellTagged(e)
    ensures To(c, v, SliceT(e)) == Give(d) <==> Renders(c, d, v, SliceT(e))
    decreases e, 3
  {
    if v.VSlice? && v.items != [] && d.DArr? { ItemsDocument(c, v.items, e, d.elements); }
  }

  ghost predicate RendersItems(c: Codec, ds: seq<Doc>, vals: seq<Value>, e: Type)
    requires HaveType(vals, e)
  {
    |ds| == |vals| && forall i | 0 <= i < |vals| :: RendersElement(c, ds[i], vals[i], e)
  }

  lemma {:induction false} ItemsDocument(c: Codec, vals: seq<Value>, e: Type, ds: seq<Doc>)
    requires HaveType(vals, e) && WellTagged(e)
    ensures ToItems(c, vals, e) == Some(ds) <==> RendersItems(c, ds, vals, e)
    decreases e, 2, |vals|
  {
    if vals == [] {
    } else if ds == [] {
    } else {
      var n := |vals| - 1;
      ItemsDocument(c, vals[..n], e, ds[..|ds| - 1]);
      ElementDocument(c, vals[n], e, ds[|ds| - 1]);
      assert ds == ds[..|ds| - 1] + [ds[|ds| - 1]];
      RendersItemsEnd(c, ds, vals, e);
    }
  }

  lemma RendersItemsEnd(c: Codec, ds: seq<Doc>, vals: seq<Value>, e: Type)
    requires HaveType(vals, e) && vals != [] && ds != []
    ensures RendersItems(c, ds, vals, e)
       <==> RendersItems(c, ds[..|ds| - 1], vals[..|vals| - 1], e)
            && RendersElement(c, ds[|ds| - 1], vals[|vals| - 1], e)
  {
  }

  lemma {:induction false} MapDocument(c: Codec, v: Value, e: Type, d: Doc)
    requires HasType(v, MapT(e)) && WellTagged(e)
    ensures To(c, v, MapT(e)) == Give(d) <==> Renders(c, d, v, MapT(e))
    decreases e, 3
  {
    if v.VMap? && v.entries != map[] && d.DObj? {
      forall k | k in v.entries && k in d.props
        ensures !To(c, v.entries[k], e).Fail? && Element(c, v.entries[k], e) == d.props[k]
          <==> RendersElement(c, d.props[k], v.entries[k], e)
      {
        ElementDocument(c, v.entries[k], e, d.props[k]);
      }
      WrittenMap(c, v, e, d);
    }
  }

  lemma WrittenMap(c: Codec, v: Value, e: Type, d: Doc)
    requires HasType(v, MapT(e)) && v.VMap? && v.entries != map[] && d.DObj?
    ensures To(c, v, MapT(e)) == Give(d)
       <==> d.props.Keys == v.entries.Keys
            && forall k | k in v.entries :: !To(c, v.entries[k], e).Fail? && Element(c, v.entries[k], e) == d.props[k]
  {
    if d.props.Keys == v.entries.Keys
       && forall k | k in v.entries :: !To(c, v.entries[k], e).Fail? && Element(c, v.entries[k], e) == d.props[k] {
      WrittenEntries(c, v, d.props, e);
    }
  }

  lemma {:induction false} StructDocument(c: Codec, v: Value, fs: seq<FieldT>, d: Doc)
    requires HasType(v, StructT(fs)) && AllTagged(fs)
    ensures To(c, v, StructT(fs)) == Give(d) <==> Renders(c, d, v, StructT(fs))
    decreases fs, 1
  {
    if ToFields(c, v.fields, fs).Some? { WrittenNames(c, v.fields, fs); }
    if d.DObj? {
      FieldsDocument(c, d.props, v.fields, fs);
      assert d.props.Keys <= TagNames(fs) ==> Restrict(d.props, TagNames(fs)) == d.props;
    }
  }

  /** Of the properties of a document, those named by the tags of a struct are written for it exactly
      when they stand for its fields. */
  lemma {:induction false} FieldsDocument(c: Codec, props: map<string, Doc>, vals: seq<Value>, fs: seq<FieldT>)
    requires HaveTypes(vals, fs) && AllTagged(fs)
    ensures ToFields(c, vals, fs) == Some(Restrict(props, TagNames(fs))) <==> RendersFields(c, props, vals, fs)
    decreases fs, 0
  {
    if fs == [] {
    } else {
      var n := |fs| - 1;
      FieldsDocument(c, props, vals[..n], fs[..n]);
      FieldDocument(c, props, vals[n], fs[n]);
      FieldsDocumentEnd(c, props, vals, fs);
      RendersFieldsEnd(c, props, vals, fs);
    }
  }

  lemma FieldsDocumentEnd(c: Codec, props: map<string, Doc>, vals: seq<Value>, fs: seq<FieldT>)
    requires HaveTypes(vals, fs) && AllTagged(fs) && fs != []
    ensures var n := |fs| - 1;
      ToFields(c, vals, fs) == Some(Restrict(props, TagNames(fs)))
      <==> ToFields(c, vals[..n], fs[..n]) == Some(Restrict(props, TagNames(fs[..n])))
           && Added(c, vals[n], fs[n]) == Some(Restrict(props, FieldNames(fs[n])))
  {
    var n := |fs| - 1;
    if ToFields(c, vals, fs).Some? {
      WrittenNames(c, vals[..n], fs[..n]);
      AddedNames(c, vals[n], fs[n]);
      RestrictSplit(props, ToFields(c, vals[..n], fs[..n]).value, Added(c, vals[n], fs[n]).value,
        TagNames(fs[..n]), FieldNames(fs[n]));
    }
  }

  lemma RendersFieldsEnd(c: Codec, props: map<string, Doc>, vals: seq<Value>, fs: seq<FieldT>)
    requires HaveTypes(vals, fs) && fs != []
    ensures var n := |fs| - 1;
      RendersFields(c, props, vals, fs)
      <==> RendersFields(c, props, vals[..n], fs[..n]) && RendersField(c, props, vals[n], fs[n])
  {
  }

  lemma {:induction false} FieldDocument(c: Codec, props: map<string, Doc>, v: Value, f: FieldT)
    requires HasType(v, f.ty) && WellTagged(f.ty) && Embeddable(f)
    ensures Added(c, v, f) == Some(Restrict(props, FieldNames(f))) <==> RendersField(c, props, v, f)
    decreases f, 1
  {
    if f.tag != "" {
      TaggedDocument(c, props, v, f);
    } else if f.embedded {
      EmbeddedDocument(c, props, v, f);
    }
  }

  lemma {:induction false} TaggedDocument(c: Codec, props: map<string, Doc>, v: Value, f: FieldT)
    requires HasType(v, f.ty) && WellTagged(f.ty) && f.tag != ""
    ensures Added(c, v, f) == Some(Restrict(props, {f.tag})) <==> RendersField(c, props, v, f)
    decreases f, 0
  {
    if Omitted(c, v, f.ty) {
      OmittedWrites(c, v, f.ty);
      assert Restrict(props, {f.tag}) == map[] <==> f.tag !in props by { assert f.tag in props ==> f.tag in Restrict(props, {f.tag}); }
    } else {
      if !To(c, v, f.ty).Fail? { OmittedExact(c, v, f.ty); }
      if f.tag in props {
        DocumentExact(c, v, f.ty, props[f.tag]);
        assert Restrict(props, {f.tag}) == map[f.tag := props[f.tag]];
        assert To(c, v, f.ty).Give? ==>
          (Added(c, v, f).value == map[f.tag := props[f.tag]] <==> Added(c, v, f).value[f.tag] == props[f.tag]);
      } else {
        assert Restrict(props, {f.tag}) == map[];
        assert To(c, v, f.ty).Give? ==> f.tag in Added(c, v, f).value;
      }
    }
  }

  lemma {:induction false} EmbeddedDocument(c: Codec, props: map<string, Doc>, v: Value, f: FieldT)
    requires HasType(v, f.ty) && WellTagged(f.ty) && Embeddable(f) && f.tag == "" && f.embedded
    ensures Added(c, v, f) == Some(Restrict(props, FieldNames(f))) <==> RendersField(c, props, v, f)
    decreases f, 0
  {
    match f.ty
    case StructT(gs) => FieldsDocument(c, props, v.fields, gs);
    case PtrT(e) =>
      if v.VPtr? {
        PointeeAdds(c, v, f);
        FieldsDocument(c, props, v.target.fields, e.fields);
      } else {
        assert Restrict(props, FieldNames(f)) == map[] <==> FieldNames(f) !! props.Keys by {
          assert forall k | k in FieldNames(f) && k in props :: k in Restrict(props, FieldNames(f));
        }
      }
    case _ =>
  }
}
