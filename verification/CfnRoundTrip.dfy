/** What reading gives back of a spec that was written: which values are left out, and when none is
    lost. */
module CfnRoundTrip {
  import opened Options
  import opened Cfn

  // ── Types with unambiguous tags ─────────────────────────────────────────────

  /** The property names that a field reads and writes. */
  function FieldNames(f: FieldT): set<string>
    decreases f
  {
    if f.tag != "" then {f.tag}
    else if !f.embedded then {}
    else match f.ty
      case StructT(gs) => TagNames(gs)
      case PtrT(e) => if e.StructT? then TagNames(e.fields) else {}
      case _ => {}
  }

  function TagNames(fs: seq<FieldT>): set<string>
    decreases fs
  {
    if fs == [] then {} else TagNames(fs[..|fs| - 1]) + FieldNames(fs[|fs| - 1])
  }

  /** Embedded fields are structs or pointers to structs, and no property name occurs twice in a
      struct. */
  predicate WellTagged(ty: Type)
    decreases ty
  {
    match ty
    case PtrT(e) => WellTagged(e)
    case SliceT(e) => WellTagged(e)
    case MapT(e) => WellTagged(e)
    case StructT(fs) => AllTagged(fs)
    case _ => true
  }

  predicate AllTagged(fs: seq<FieldT>)
    decreases fs
  {
    fs == []
    || var f := fs[|fs| - 1];
       && AllTagged(fs[..|fs| - 1])
       && TagNames(fs[..|fs| - 1]) !! FieldNames(f)
       && WellTagged(f.ty)
       && Embeddable(f)
  }

  predicate Embeddable(f: FieldT) {
    f.tag == "" && f.embedded ==> f.ty.StructT? || (f.ty.PtrT? && f.ty.elem.StructT?)
  }

  // ── What is left out ────────────────────────────────────────────────────────

  /** The values that are left out of a document: empty texts, lists and maps, nil, JSON null, and
      whatever consists of such values only. Flags and numbers never are. */
  predicate Omitted(c: Codec, v: Value, ty: Type)
    requires HasType(v, ty)
    decreases ty
  {
    match ty
    case StringT => v.text == ""
    case JsonT => v.raw == "" || c.parse(v.raw) == Some(DNull)
    case PtrT(e) => v.VNil? || Omitted(c, v.target, e)
    case SliceT(_) => v.VNil? || v.items == []
    case MapT(_) => v.VNil? || v.entries == map[]
    case StructT(fs) => AllOmitted(c, v.fields, fs)
    case _ => false
  }

  predicate AllOmitted(c: Codec, vals: seq<Value>, fs: seq<FieldT>)
    requires HaveTypes(vals, fs)
    decreases fs
  {
    fs == []
    || var n := |fs| - 1;
       && AllOmitted(c, vals[..n], fs[..n])
       && ((fs[n].tag == "" && !fs[n].embedded) || Omitted(c, vals[n], fs[n].ty))
  }

  /** A value of a well-tagged type is left out exactly when it is empty in this sense. */
  lemma {:induction false} OmittedExact(c: Codec, v: Value, ty: Type)
    requires HasType(v, ty) && WellTagged(ty) && !To(c, v, ty).Fail?
    ensures To(c, v, ty).Omit? <==> Omitted(c, v, ty)
    decreases ty
  {
    match ty
    case PtrT(e) => if v.VPtr? { OmittedExact(c, v.target, e); }
    case StructT(fs) => FieldsOmittedExact(c, v.fields, fs);
    case _ =>
  }

  lemma {:induction false} FieldsOmittedExact(c: Codec, vals: seq<Value>, fs: seq<FieldT>)
    requires HaveTypes(vals, fs) && AllTagged(fs) && ToFields(c, vals, fs).Some?
    ensures ToFields(c, vals, fs) == Some(map[]) <==> AllOmitted(c, vals, fs)
    decreases fs
  {
    if fs == [] {
    } else {
      var n := |fs| - 1;
      FieldsOmittedExact(c, vals[..n], fs[..n]);
      AddedNothingExact(c, vals[n], fs[n]);
      EmptySum(ToFields(c, vals[..n], fs[..n]).value, Added(c, vals[n], fs[n]).value);
    }
  }

  lemma {:induction false} AddedNothingExact(c: Codec, v: Value, f: FieldT)
    requires HasType(v, f.ty) && WellTagged(f.ty) && Embeddable(f) && Added(c, v, f).Some?
    ensures Added(c, v, f) == Some(map[]) <==> (f.tag == "" && !f.embedded) || Omitted(c, v, f.ty)
    decreases f
  {
    if f.tag != "" || f.embedded {
      OmittedExact(c, v, f.ty);
      if f.tag != "" && To(c, v, f.ty).Give? {
        assert f.tag in Added(c, v, f).value;
      }
    }
  }

  lemma EmptySum(m: map<string, Doc>, a: map<string, Doc>)
    ensures m + a == map[] <==> m == map[] && a == map[]
  {
    if m + a == map[] {
      assert forall k | k in m :: k in m + a;
      assert forall k | k in a :: k in m + a;
    }
  }

  // ── The round trip ──────────────────────────────────────────────────────────

  /** A value that is written comes back: an integer that a double holds, raw JSON in the form the
      library prints, and collections and structs whose parts come back. */
  predicate Recovered(c: Codec, v: Value, ty: Type)
    requires HasType(v, ty)
    decreases ty, 0
  {
    match ty
    case IntT => c.toInt(c.double(v.whole)) == v.whole
    case JsonT => c.parse(v.raw).Some? && c.write(Wire(c, c.parse(v.raw).value)) == v.raw
    case PtrT(e) => v.VPtr? && Recovered(c, v.target, e)
    case SliceT(e) => v.VSlice? && forall x | x in v.items :: ElementRecovered(c, x, e)
    case MapT(e) => v.VMap? && forall k | k in v.entries :: ElementRecovered(c, v.entries[k], e)
    case StructT(fs) => AllRestored(c, v.fields, fs)
    case _ => true
  }

  /** A field that is left out comes back when it holds the zero value itself: not a pointer to an
      empty text, not an empty list in place of nil. */
  predicate Restored(c: Codec, v: Value, ty: Type)
    requires HasType(v, ty)
    decreases ty, 1
  {
    if Omitted(c, v, ty) then v == Zero(ty) else Recovered(c, v, ty)
  }

  /** An element is never left out: an empty one comes back unless it is a nil list or map, a nil
      behind a pointer, or raw JSON not printed as `{}`. */
  predicate ElementRecovered(c: Codec, v: Value, ty: Type)
    requires HasType(v, ty)
    decreases ty, 1
  {
    if !Omitted(c, v, ty) then Recovered(c, v, ty)
    else match ty
      case JsonT => v.raw == c.write(DObj(map[]))
      case PtrT(e) => v.VNil? || (!Nil(v.target, e) && ElementRecovered(c, v.target, e))
      case SliceT(_) => v.VSlice?
      case MapT(_) => v.VMap?
      case StructT(fs) => AllRestored(c, v.fields, fs)
      case _ => true
  }

  /** A nil pointer, or a chain of pointers that ends in one. */
  predicate Nil(v: Value, ty: Type)
    requires HasType(v, ty)
    decreases ty
  {
    ty.PtrT? && (v.VNil? || Nil(v.target, ty.elem))
  }

  /** Untagged fields come back when zero; an embedded pointer is never nil afterwards. */
  predicate FieldRestored(c: Codec, v: Value, f: FieldT)
    requires HasType(v, f.ty)
    decreases f
  {
    if f.tag != "" then Restored(c, v, f.ty)
    else if !f.embedded then v == Zero(f.ty)
    else match f.ty
      case StructT(gs) => AllRestored(c, v.fields, gs)
      case PtrT(e) => v.VPtr? && PointeeRestored(c, v.target, e)
      case _ => true
  }

  predicate PointeeRestored(c: Codec, v: Value, ty: Type)
    requires HasType(v, ty)
    decreases ty
  {
    ty.StructT? ==> AllRestored(c, v.fields, ty.fields)
  }

  predicate AllRestored(c: Codec, vals: seq<Value>, fs: seq<FieldT>)
    requires HaveTypes(vals, fs)
    decreases fs
  {
    fs == []
    || var n := |fs| - 1;
       AllRestored(c, vals[..n], fs[..n]) && FieldRestored(c, vals[n], fs[n])
  }

  /** The read document `m` holds, of the given properties, exactly the written ones. */
  ghost predicate Carries(c: Codec, m: map<string, Doc>, own: map<string, Doc>, names: set<string>) {
    forall k | k in names :: (k in m <==> k in own) && (k in m ==> m[k] == Wire(c, own[k]))
  }

  lemma PointeeAdds(c: Codec, v: Value, f: FieldT)
    requires HasType(v, f.ty) && f.tag == "" && f.embedded
    requires f.ty.PtrT? && f.ty.elem.StructT? && v.VPtr?
    ensures HasType(v.target, f.ty.elem) && HaveTypes(v.target.fields, f.ty.elem.fields)
    ensures Added(c, v, f) == ToFields(c, v.target.fields, f.ty.elem.fields)
  {
    assert To(c, v, f.ty) == To(c, v.target, f.ty.elem);
  }

  lemma {:induction false} AddedNames(c: Codec, v: Value, f: FieldT)
    requires HasType(v, f.ty) && WellTagged(f.ty) && Embeddable(f) && Added(c, v, f).Some?
    ensures Added(c, v, f).value.Keys <= FieldNames(f)
    decreases f
  {
    if f.tag == "" && f.embedded {
      match f.ty
      case StructT(gs) => WrittenNames(c, v.fields, gs);
      case PtrT(e) =>
        if v.VPtr? {
          PointeeAdds(c, v, f);
          WrittenNames(c, v.target.fields, e.fields);
        }
      case _ =>
    }
  }

  /** A struct writes only properties named by its tags. */
  lemma {:induction false} WrittenNames(c: Codec, vals: seq<Value>, fs: seq<FieldT>)
    requires HaveTypes(vals, fs) && AllTagged(fs) && ToFields(c, vals, fs).Some?
    ensures ToFields(c, vals, fs).value.Keys <= TagNames(fs)
    decreases fs
  {
    if fs == [] {
    } else {
      var n := |fs| - 1;
      WrittenNames(c, vals[..n], fs[..n]);
      AddedNames(c, vals[n], fs[n]);
    }
  }

  /** Written into a list or map and read back, an element is unchanged. */
  ghost predicate ElementBack(c: Codec, v: Value, ty: Type)
    requires HasType(v, ty)
  {
    From(c, Wire(c, Element(c, v, ty)), Zero(ty), ty) == Some(v)
  }

  lemma {:induction false} RecoveredExact(c: Codec, v: Value, ty: Type)
    requires HasType(v, ty) && WellTagged(ty) && To(c, v, ty).Give?
    ensures From(c, Wire(c, To(c, v, ty).doc), Zero(ty), ty) == Some(v) <==> Recovered(c, v, ty)
    decreases ty, 0, 0
  {
    match ty
    case PtrT(e) => PointerExact(c, v, e);
    case SliceT(e) => ListExact(c, v, e);
    case MapT(e) => MapEntriesExact(c, v, e);
    case StructT(fs) => StructExact(c, v, fs);
    case _ => LeafExact(c, v, ty);
  }

  lemma LeafExact(c: Codec, v: Value, ty: Type)
    requires HasType(v, ty) && To(c, v, ty).Give?
    requires !ty.PtrT? && !ty.SliceT? && !ty.MapT? && !ty.StructT?
    ensures From(c, Wire(c, To(c, v, ty).doc), Zero(ty), ty) == Some(v) <==> Recovered(c, v, ty)
  {
    var d := To(c, v, ty).doc;
    assert Wire(c, d).DNull? <==> d.DNull?;
  }

  lemma {:induction false} PointerExact(c: Codec, v: Value, e: Type)
    requires HasType(v, PtrT(e)) && WellTagged(e) && To(c, v, PtrT(e)).Give?
    ensures From(c, Wire(c, To(c, v, PtrT(e)).doc), VNil, PtrT(e)) == Some(v) <==> Recovered(c, v, PtrT(e))
    decreases e, 1, 0
  {
    var d := To(c, v, PtrT(e)).doc;
    assert To(c, v.target, e) == Give(d);
    assert !Wire(c, d).DNull?;
    RecoveredExact(c, v.target, e);
  }

  lemma {:induction false} ListExact(c: Codec, v: Value, e: Type)
    requires HasType(v, SliceT(e)) && WellTagged(e) && To(c, v, SliceT(e)).Give?
    ensures From(c, Wire(c, To(c, v, SliceT(e)).doc), VNil, SliceT(e)) == Some(v) <==> Recovered(c, v, SliceT(e))
    decreases e, 1, 1
  {
    AllBackExact(c, v.items, e);
    ItemsBack(c, v.items, e);
    assert Wire(c, To(c, v, SliceT(e)).doc) == DArr(Wired(c, v.items, e));
  }

  lemma {:induction false} AllBackExact(c: Codec, vals: seq<Value>, e: Type)
    requires HaveType(vals, e) && WellTagged(e) && ToItems(c, vals, e).Some?
    ensures AllBack(c, vals, e) <==> forall x | x in vals :: ElementRecovered(c, x, e)
    decreases e, 1, 0
  {
    forall x | x in vals
      ensures ElementBack(c, x, e) <==> ElementRecovered(c, x, e)
    {
      WrittenItem(c, vals, e, x);
      ElementExact(c, x, e);
    }
  }

  lemma {:induction false} StructExact(c: Codec, v: Value, fs: seq<FieldT>)
    requires HasType(v, StructT(fs)) && AllTagged(fs) && To(c, v, StructT(fs)).Give?
    ensures From(c, Wire(c, To(c, v, StructT(fs)).doc), Zero(StructT(fs)), StructT(fs)) == Some(v)
       <==> Recovered(c, v, StructT(fs))
    decreases fs, 1, 0
  {
    var m := ToFields(c, v.fields, fs).value;
    var w := Wire(c, DObj(m));
    assert Carries(c, w.props, m, TagNames(fs));
    StructFieldsExact(c, w.props, v.fields, fs);
  }

  lemma {:induction false} ElementExact(c: Codec, v: Value, ty: Type)
    requires HasType(v, ty) && WellTagged(ty) && !To(c, v, ty).Fail?
    ensures ElementBack(c, v, ty) <==> ElementRecovered(c, v, ty)
    decreases ty, 0, 1
  {
    OmittedExact(c, v, ty);
    if To(c, v, ty).Give? { RecoveredExact(c, v, ty); } else { EmptyExact(c, v, ty); }
  }

  lemma {:induction false} EmptyExact(c: Codec, v: Value, ty: Type)
    requires HasType(v, ty) && WellTagged(ty) && To(c, v, ty).Omit? && Omitted(c, v, ty)
    ensures From(c, Wire(c, ZeroFor(v, ty)), Zero(ty), ty) == Some(v) <==> ElementRecovered(c, v, ty)
    decreases ty, 0, 0
  {
    match ty
    case PtrT(e) =>
      if v.VPtr? {
        EmptyExact(c, v.target, e);
        NilExact(c, v.target, e);
        assert Wire(c, ZeroFor(v, ty)).DNull? <==> Nil(v.target, e);
      }
    case StructT(fs) =>
      assert Wire(c, DObj(map[])) == DObj(map[]);
      StructFieldsExact(c, map[], v.fields, fs);
    case _ => EmptyLeafExact(c, v, ty);
  }

  lemma EmptyLeafExact(c: Codec, v: Value, ty: Type)
    requires HasType(v, ty) && !ty.PtrT? && !ty.StructT? && Omitted(c, v, ty)
    ensures From(c, Wire(c, ZeroFor(v, ty)), Zero(ty), ty) == Some(v) <==> ElementRecovered(c, v, ty)
  {
    assert Wire(c, DObj(map[])) == DObj(map[]);
    assert Wire(c, DArr([])) == DArr([]);
  }

  lemma {:induction false} NilExact(c: Codec, v: Value, ty: Type)
    requires HasType(v, ty) && WellTagged(ty) && To(c, v, ty).Omit?
    ensures ZeroFor(v, ty).DNull? <==> Nil(v, ty)
    decreases ty
  {
    match ty
    case PtrT(e) => if v.VPtr? { NilExact(c, v.target, e); }
    case _ =>
  }

  lemma {:induction false} WrittenItem(c: Codec, vals: seq<Value>, e: Type, x: Value)
    requires HaveType(vals, e) && ToItems(c, vals, e).Some? && x in vals
    ensures !To(c, x, e).Fail?
  {
    var n := |vals| - 1;
    if x != vals[n] {
      assert vals == vals[..n] + [vals[n]];
      WrittenItem(c, vals[..n], e, x);
    }
  }

  lemma {:induction false} ItemsBack(c: Codec, vals: seq<Value>, e: Type)
    requires HaveType(vals, e) && ToItems(c, vals, e).Some?
    ensures FromItems(c, Wired(c, vals, e), e) == Some(vals) <==> AllBack(c, vals, e)
  {
    if vals == [] {
    } else {
      var n := |vals| - 1;
      WiredEnd(c, vals, e);
      ItemsBack(c, vals[..n], e);
      ReadItemsEnd(c, Wired(c, vals[..n], e), Wire(c, Element(c, vals[n], e)), vals, e);
      AllBackEnd(c, vals, e);
    }
  }

  /** The list as it is read. */
  function Wired(c: Codec, vals: seq<Value>, e: Type): seq<Doc>
    requires HaveType(vals, e) && ToItems(c, vals, e).Some?
  {
    WireAll(c, ToItems(c, vals, e).value)
  }

  lemma WiredEnd(c: Codec, vals: seq<Value>, e: Type)
    requires vals != [] && HaveType(vals, e) && ToItems(c, vals, e).Some?
    ensures var n := |vals| - 1;
      && HaveType(vals[..n], e) && ToItems(c, vals[..n], e).Some?
      && Wired(c, vals, e) == Wired(c, vals[..n], e) + [Wire(c, Element(c, vals[n], e))]
  {
    var n := |vals| - 1;
    var ds := ToItems(c, vals[..n], e).value;
    var d := Element(c, vals[n], e);
    assert (ds + [d])[..|ds|] == ds;
  }

  lemma ReadItemsEnd(c: Codec, ws: seq<Doc>, w: Doc, vals: seq<Value>, e: Type)
    requires vals != []
    ensures FromItems(c, ws + [w], e) == Some(vals)
       <==> FromItems(c, ws, e) == Some(vals[..|vals| - 1]) && From(c, w, Zero(e), e) == Some(vals[|vals| - 1])
  {
    assert (ws + [w])[..|ws|] == ws;
    match (FromItems(c, ws, e), From(c, w, Zero(e), e))
    case (Some(vs), Some(v)) =>
      assert (vs + [v])[..|vs|] == vs;
      assert vals == vals[..|vals| - 1] + [vals[|vals| - 1]];
    case _ =>
  }

  lemma AllBackEnd(c: Codec, vals: seq<Value>, e: Type)
    requires vals != [] && HaveType(vals, e)
    ensures AllBack(c, vals, e) <==> AllBack(c, vals[..|vals| - 1], e) && ElementBack(c, vals[|vals| - 1], e)
  {
    assert vals == vals[..|vals| - 1] + [vals[|vals| - 1]];
  }

  ghost predicate AllBack(c: Codec, vals: seq<Value>, e: Type)
    requires HaveType(vals, e)
  {
    forall x | x in vals :: ElementBack(c, x, e)
  }

  lemma {:induction false} MapEntriesExact(c: Codec, v: Value, e: Type)
    requires HasType(v, MapT(e)) && WellTagged(e) && To(c, v, MapT(e)).Give?
    ensures From(c, Wire(c, To(c, v, MapT(e)).doc), VNil, MapT(e)) == Some(v) <==> Recovered(c, v, MapT(e))
    decreases e, 1, 0
  {
    forall k | k in v.entries
      ensures ElementBack(c, v.entries[k], e) <==> ElementRecovered(c, v.entries[k], e)
    {
      ElementExact(c, v.entries[k], e);
    }
    EntriesBack(c, v, e);
  }

  lemma EntriesBack(c: Codec, v: Value, e: Type)
    requires HasType(v, MapT(e)) && To(c, v, MapT(e)).Give?
    ensures From(c, Wire(c, To(c, v, MapT(e)).doc), VNil, MapT(e)) == Some(v)
       <==> forall k | k in v.entries :: ElementBack(c, v.entries[k], e)
  {
    var w := Wire(c, To(c, v, MapT(e)).doc);
    assert w.DObj? && w.props.Keys == v.entries.Keys;
    assert forall k | k in v.entries :: w.props[k] == Wire(c, Element(c, v.entries[k], e));
    ReadEntries(c, w.props, VNil, v.entries, e);
  }

  lemma {:induction false} FieldExact(c: Codec, m: map<string, Doc>, v: Value, f: FieldT)
    requires HasType(v, f.ty) && WellTagged(f.ty) && Embeddable(f) && Added(c, v, f).Some?
    requires Carries(c, m, Added(c, v, f).value, FieldNames(f))
    ensures FromField(c, m, Zero(f.ty), f) == Some(v) <==> FieldRestored(c, v, f)
    decreases f, 0, 1
  {
    if f.tag != "" {
      TaggedExact(c, m, v, f);
    } else if f.embedded {
      EmbeddedExact(c, m, v, f);
    }
  }

  lemma {:induction false} TaggedExact(c: Codec, m: map<string, Doc>, v: Value, f: FieldT)
    requires HasType(v, f.ty) && WellTagged(f.ty) && f.tag != "" && Added(c, v, f).Some?
    requires Carries(c, m, Added(c, v, f).value, {f.tag})
    ensures FromField(c, m, Zero(f.ty), f) == Some(v) <==> Restored(c, v, f.ty)
    decreases f, 0, 0
  {
    OmittedExact(c, v, f.ty);
    if To(c, v, f.ty).Give? {
      RecoveredExact(c, v, f.ty);
      assert m[f.tag] == Wire(c, To(c, v, f.ty).doc);
    }
  }

  lemma {:induction false} EmbeddedExact(c: Codec, m: map<string, Doc>, v: Value, f: FieldT)
    requires HasType(v, f.ty) && WellTagged(f.ty) && Embeddable(f) && Added(c, v, f).Some?
    requires f.tag == "" && f.embedded
    requires Carries(c, m, Added(c, v, f).value, FieldNames(f))
    ensures From(c, DObj(m), Zero(f.ty), f.ty) == Some(v) <==> FieldRestored(c, v, f)
    decreases f, 0, 0
  {
    match f.ty
    case StructT(gs) => StructFieldsExact(c, m, v.fields, gs);
    case PtrT(e) =>
      if v.VPtr? {
        PointeeAdds(c, v, f);
        StructFieldsExact(c, m, v.target.fields, e.fields);
        assert From(c, DObj(m), Zero(e), e) == Some(v.target)
          <==> FromFields(c, m, Zeros(e.fields), e.fields) == Some(v.target.fields);
      }
    case _ =>
  }

  /** Reading the properties of `vals` into a zero struct gives `vals` back exactly when all fields
      are restored. */
  lemma {:induction false} StructFieldsExact(c: Codec, m: map<string, Doc>, vals: seq<Value>, fs: seq<FieldT>)
    requires HaveTypes(vals, fs) && AllTagged(fs) && ToFields(c, vals, fs).Some?
    requires Carries(c, m, ToFields(c, vals, fs).value, TagNames(fs))
    ensures FromFields(c, m, Zeros(fs), fs) == Some(vals) <==> AllRestored(c, vals, fs)
    decreases fs, 0, 0
  {
    if fs == [] {
    } else {
      var n := |fs| - 1;
      CarriesParts(c, m, vals, fs);
      StructFieldsExact(c, m, vals[..n], fs[..n]);
      FieldExact(c, m, vals[n], fs[n]);
      ReadFieldsEnd(c, m, vals, fs);
    }
  }

  lemma CarriesParts(c: Codec, m: map<string, Doc>, vals: seq<Value>, fs: seq<FieldT>)
    requires fs != [] && HaveTypes(vals, fs) && AllTagged(fs) && ToFields(c, vals, fs).Some?
    requires Carries(c, m, ToFields(c, vals, fs).value, TagNames(fs))
    ensures var n := |fs| - 1;
      && Carries(c, m, ToFields(c, vals[..n], fs[..n]).value, TagNames(fs[..n]))
      && Carries(c, m, Added(c, vals[n], fs[n]).value, FieldNames(fs[n]))
  {
    var n := |fs| - 1;
    WrittenNames(c, vals[..n], fs[..n]);
    AddedNames(c, vals[n], fs[n]);
    CarriesSplit(c, m, ToFields(c, vals[..n], fs[..n]).value, Added(c, vals[n], fs[n]).value,
      TagNames(fs[..n]), FieldNames(fs[n]));
  }

  lemma CarriesSplit(c: Codec, m: map<string, Doc>, own: map<string, Doc>, a: map<string, Doc>,
      names: set<string>, more: set<string>)
    requires own.Keys <= names && a.Keys <= more && names !! more
    requires Carries(c, m, own + a, names + more)
    ensures Carries(c, m, own, names) && Carries(c, m, a, more)
  {
    forall k | k in names + more
      ensures (k in names ==> k !in a) && (k in more ==> k !in own)
    {
    }
  }

  lemma ReadFieldsEnd(c: Codec, m: map<string, Doc>, vals: seq<Value>, fs: seq<FieldT>)
    requires fs != [] && |vals| == |fs|
    ensures var n := |fs| - 1;
      FromFields(c, m, Zeros(fs), fs) == Some(vals)
      <==> FromFields(c, m, Zeros(fs[..n]), fs[..n]) == Some(vals[..n])
           && FromField(c, m, Zero(fs[n].ty), fs[n]) == Some(vals[n])
  {
    var n := |fs| - 1;
    assert Zeros(fs)[..n] == Zeros(fs[..n]) && Zeros(fs)[n] == Zero(fs[n].ty);
    assert vals == vals[..n] + [vals[n]];
    match (FromFields(c, m, Zeros(fs[..n]), fs[..n]), FromField(c, m, Zero(fs[n].ty), fs[n]))
    case (Some(vs), Some(v)) =>
      assert |vs| == n;
      assert (vs + [v])[..n] == vs && (vs + [v])[n] == v;
    case _ =>
  }

  // ── Reading back never fails ────────────────────────────────────────────────

  lemma {:induction false} WrittenReads(c: Codec, v: Value, ty: Type)
    requires HasType(v, ty) && WellTagged(ty) && To(c, v, ty).Give?
    ensures From(c, Wire(c, To(c, v, ty).doc), Zero(ty), ty).Some?
    decreases ty, 0, 0
  {
    var d := To(c, v, ty).doc;
    assert !Wire(c, d).DNull?;
    match ty
    case PtrT(e) =>
      assert To(c, v.target, e) == Give(d);
      WrittenReads(c, v.target, e);
    case SliceT(e) =>
      assert Wire(c, d) == DArr(Wired(c, v.items, e));
      ItemsRead(c, v.items, e);
    case MapT(e) => EntriesRead(c, v, e);
    case StructT(fs) =>
      assert Carries(c, Wire(c, d).props, d.props, TagNames(fs));
      FieldsRead(c, Wire(c, d).props, v.fields, fs);
    case _ =>
  }

  lemma {:induction false} ElementReads(c: Codec, v: Value, ty: Type)
    requires HasType(v, ty) && WellTagged(ty) && !To(c, v, ty).Fail?
    ensures From(c, Wire(c, Element(c, v, ty)), Zero(ty), ty).Some?
    decreases ty, 0, 1
  {
    if To(c, v, ty).Give? { WrittenReads(c, v, ty); } else { EmptyReads(c, v, ty); }
  }

  lemma {:induction false} EmptyReads(c: Codec, v: Value, ty: Type)
    requires HasType(v, ty) && WellTagged(ty) && To(c, v, ty).Omit?
    ensures From(c, Wire(c, ZeroFor(v, ty)), Zero(ty), ty).Some?
    decreases ty, 0, 0
  {
    assert Wire(c, DObj(map[])) == DObj(map[]);
    match ty
    case PtrT(e) => if v.VPtr? { EmptyReads(c, v.target, e); }
    case StructT(fs) => AbsentRead(c, map[], fs);
    case _ =>
  }

  lemma {:induction false} ItemsRead(c: Codec, vals: seq<Value>, e: Type)
    requires HaveType(vals, e) && WellTagged(e) && ToItems(c, vals, e).Some?
    ensures FromItems(c, Wired(c, vals, e), e).Some?
    decreases e, 1, |vals|
  {
    if vals == [] {
    } else {
      var n := |vals| - 1;
      WiredEnd(c, vals, e);
      ItemsRead(c, vals[..n], e);
      ElementReads(c, vals[n], e);
      ItemsReadEnd(c, Wired(c, vals[..n], e), Wire(c, Element(c, vals[n], e)), e);
    }
  }

  lemma ItemsReadEnd(c: Codec, ws: seq<Doc>, w: Doc, e: Type)
    ensures FromItems(c, ws + [w], e).Some? <==> FromItems(c, ws, e).Some? && From(c, w, Zero(e), e).Some?
  {
    assert (ws + [w])[..|ws|] == ws;
  }

  lemma {:induction false} EntriesRead(c: Codec, v: Value, e: Type)
    requires HasType(v, MapT(e)) && WellTagged(e) && To(c, v, MapT(e)).Give?
    ensures From(c, Wire(c, To(c, v, MapT(e)).doc), VNil, MapT(e)).Some?
    decreases e, 1, 0
  {
    var w := Wire(c, To(c, v, MapT(e)).doc);
    assert w.DObj? && w.props.Keys == v.entries.Keys;
    forall k | k in w.props
      ensures From(c, w.props[k], Zero(e), e).Some?
    {
      assert w.props[k] == Wire(c, Element(c, v.entries[k], e));
      ElementReads(c, v.entries[k], e);
    }
  }

  lemma {:induction false} FieldReads(c: Codec, m: map<string, Doc>, v: Value, f: FieldT)
    requires HasType(v, f.ty) && WellTagged(f.ty) && Embeddable(f) && Added(c, v, f).Some?
    requires Carries(c, m, Added(c, v, f).value, FieldNames(f))
    ensures FromField(c, m, Zero(f.ty), f).Some?
    decreases f, 0, 1
  {
    if f.tag != "" {
      TaggedReads(c, m, v, f);
    } else if f.embedded {
      EmbeddedReads(c, m, v, f);
    }
  }

  lemma {:induction false} TaggedReads(c: Codec, m: map<string, Doc>, v: Value, f: FieldT)
    requires HasType(v, f.ty) && WellTagged(f.ty) && f.tag != "" && Added(c, v, f).Some?
    requires Carries(c, m, Added(c, v, f).value, {f.tag})
    ensures FromField(c, m, Zero(f.ty), f).Some?
    decreases f, 0, 0
  {
    if To(c, v, f.ty).Give? {
      WrittenReads(c, v, f.ty);
      assert m[f.tag] == Wire(c, To(c, v, f.ty).doc);
    }
  }

  lemma {:induction false} EmbeddedReads(c: Codec, m: map<string, Doc>, v: Value, f: FieldT)
    requires HasType(v, f.ty) && WellTagged(f.ty) && Embeddable(f) && Added(c, v, f).Some?
    requires f.tag == "" && f.embedded
    requires Carries(c, m, Added(c, v, f).value, FieldNames(f))
    ensures From(c, DObj(m), Zero(f.ty), f.ty).Some?
    decreases f, 0, 0
  {
    match f.ty
    case StructT(gs) => FieldsRead(c, m, v.fields, gs);
    case PtrT(e) =>
      PointerReads(c, m, e.fields);
      if v.VPtr? {
        PointeeAdds(c, v, f);
        FieldsRead(c, m, v.target.fields, e.fields);
      } else {
        AbsentRead(c, m, e.fields);
      }
    case _ =>
  }

  lemma PointerReads(c: Codec, m: map<string, Doc>, fs: seq<FieldT>)
    ensures From(c, DObj(m), VNil, PtrT(StructT(fs))).Some? <==> FromFields(c, m, Zeros(fs), fs).Some?
  {
    assert From(c, DObj(m), Zero(StructT(fs)), StructT(fs)).Some? <==> FromFields(c, m, Zeros(fs), fs).Some?;
  }

  lemma {:induction false} FieldsRead(c: Codec, m: map<string, Doc>, vals: seq<Value>, fs: seq<FieldT>)
    requires HaveTypes(vals, fs) && AllTagged(fs) && ToFields(c, vals, fs).Some?
    requires Carries(c, m, ToFields(c, vals, fs).value, TagNames(fs))
    ensures FromFields(c, m, Zeros(fs), fs).Some?
    decreases fs, 0, 0
  {
    if fs == [] {
    } else {
      var n := |fs| - 1;
      CarriesParts(c, m, vals, fs);
      FieldsRead(c, m, vals[..n], fs[..n]);
      FieldReads(c, m, vals[n], fs[n]);
      AllFieldsRead(c, m, fs);
    }
  }

  lemma AllFieldsRead(c: Codec, m: map<string, Doc>, fs: seq<FieldT>)
    requires fs != []
    ensures var n := |fs| - 1;
      FromFields(c, m, Zeros(fs), fs).Some?
      <==> FromFields(c, m, Zeros(fs[..n]), fs[..n]).Some? && FromField(c, m, Zero(fs[n].ty), fs[n]).Some?
  {
    var n := |fs| - 1;
    assert Zeros(fs)[..n] == Zeros(fs[..n]) && Zeros(fs)[n] == Zero(fs[n].ty);
  }

  /** A struct none of whose properties is in the document is read without an error. */
  lemma {:induction false} AbsentRead(c: Codec, m: map<string, Doc>, fs: seq<FieldT>)
    requires AllTagged(fs) && TagNames(fs) !! m.Keys
    ensures FromFields(c, m, Zeros(fs), fs).Some?
    decreases fs
  {
    if fs == [] {
    } else {
      var n := |fs| - 1;
      AbsentRead(c, m, fs[..n]);
      AbsentReads(c, m, fs[n]);
      AllFieldsRead(c, m, fs);
    }
  }

  lemma {:induction false} AbsentReads(c: Codec, m: map<string, Doc>, f: FieldT)
    requires WellTagged(f.ty) && Embeddable(f) && FieldNames(f) !! m.Keys
    ensures FromField(c, m, Zero(f.ty), f).Some?
    decreases f
  {
    if f.tag == "" && f.embedded {
      assert FromField(c, m, Zero(f.ty), f) == From(c, DObj(m), Zero(f.ty), f.ty);
      match f.ty
      case StructT(gs) => AbsentRead(c, m, gs);
      case PtrT(e) =>
        AbsentRead(c, m, e.fields);
        PointerReads(c, m, e.fields);
      case _ =>
    }
  }

  // ── Specs ───────────────────────────────────────────────────────────────────

  /** `ToDesiredState` for a struct with the given fields, as the document is parsed again. */
  function DesiredState(c: Codec, vals: seq<Value>, fs: seq<FieldT>): Option<Doc>
    requires HaveTypes(vals, fs)
  {
    match To(c, VStruct(vals), StructT(fs))
    case Fail => None
    case Omit => Some(DObj(map[]))
    case Give(d) => Some(Wire(c, d))
  }

  /** `FromProperties` for a document and a target struct with the given fields. */
  function FromProperties(c: Codec, doc: Doc, dsts: seq<Value>, fs: seq<FieldT>): (r: Option<seq<Value>>)
    requires HaveTypes(dsts, fs)
    ensures r.Some? ==> HaveTypes(r.value, fs)
  {
    match From(c, doc, VPtr(VStruct(dsts)), PtrT(StructT(fs)))
    case None => None
    case Some(v) => if v.VPtr? then Some(v.target.fields) else Some(dsts)
  }

  /** The desired state of a spec is read into a zero spec without an error, and gives the spec back
      exactly when no field loses its value: one that is left out is zero, an integer fits a double,
      raw JSON is in the library's form, and so on through structs, lists and maps. */
  lemma RoundTripExact(c: Codec, vals: seq<Value>, fs: seq<FieldT>)
    requires HaveTypes(vals, fs) && AllTagged(fs) && DesiredState(c, vals, fs).Some?
    ensures FromProperties(c, DesiredState(c, vals, fs).value, Zeros(fs), fs).Some?
    ensures FromProperties(c, DesiredState(c, vals, fs).value, Zeros(fs), fs) == Some(vals)
       <==> AllRestored(c, vals, fs)
  {
    var doc := DesiredState(c, vals, fs).value;
    var own := ToFields(c, vals, fs).value;
    assert own != map[] ==> doc == Wire(c, DObj(own));
    assert Carries(c, doc.props, own, TagNames(fs));
    StructFieldsExact(c, doc.props, vals, fs);
    FieldsRead(c, doc.props, vals, fs);
    ReadsStruct(c, doc.props, Zeros(fs), fs);
  }

  lemma ReadsStruct(c: Codec, m: map<string, Doc>, dsts: seq<Value>, fs: seq<FieldT>)
    requires HaveTypes(dsts, fs)
    ensures FromProperties(c, DObj(m), dsts, fs) == FromFields(c, m, dsts, fs)
  {
    assert From(c, DObj(m), VStruct(dsts), StructT(fs)).Some? <==> FromFields(c, m, dsts, fs).Some?;
  }

  /** The spec whose one property `P` has the given value comes back from its desired state. */
  ghost predicate Survives(c: Codec, v: Value, ty: Type)
    requires HasType(v, ty)
  {
    var fs := [FieldT("P", false, ty)];
    && DesiredState(c, [v], fs).Some?
    && FromProperties(c, DesiredState(c, [v], fs).value, Zeros(fs), fs) == Some([v])
  }

  lemma SurvivesExact(c: Codec, v: Value, ty: Type)
    requires HasType(v, ty) && WellTagged(ty) && !To(c, v, ty).Fail?
    ensures Survives(c, v, ty) <==> Restored(c, v, ty)
  {
    var f := FieldT("P", false, ty);
    assert [f][..0] == [] && [v][..0] == [];
    assert AllTagged([]) && TagNames([]) == {};
    assert AllTagged([f]) && TagNames([f]) == {"P"};
    assert ToFields(c, [v], [f]).Some?;
    RoundTripExact(c, [v], [f]);
  }

  /** A text, list or map behind a pointer or in a slot of its own is lost when it is empty, while
      an empty text inside a list is not, nor a false flag behind a pointer; a map holding a nil list
      comes back with an empty one. */
  lemma LostAndKept(c: Codec)
    ensures !Survives(c, VPtr(VString("")), PtrT(StringT))
    ensures !Survives(c, VSlice([]), SliceT(StringT))
    ensures !Survives(c, VMap(map["k" := VNil]), MapT(SliceT(StringT)))
    ensures Survives(c, VSlice([VString("")]), SliceT(StringT))
    ensures Survives(c, VPtr(VBool(false)), PtrT(BoolT))
  {
    SurvivesExact(c, VPtr(VString("")), PtrT(StringT));
    SurvivesExact(c, VSlice([]), SliceT(StringT));
    SurvivesExact(c, VPtr(VBool(false)), PtrT(BoolT));
    ListOfEmpty(c);
    MapOfNil(c);
  }

  lemma ListOfEmpty(c: Codec)
    ensures Survives(c, VSlice([VString("")]), SliceT(StringT))
  {
    var v := VSlice([VString("")]);
    assert [VString("")][..0] == [];
    assert ToItems(c, v.items, StringT).Some?;
    SurvivesExact(c, v, SliceT(StringT));
  }

  lemma MapOfNil(c: Codec)
    ensures !Survives(c, VMap(map["k" := VNil]), MapT(SliceT(StringT)))
  {
    var v := VMap(map["k" := VNil]);
    assert "k" in v.entries;
    assert !ElementRecovered(c, v.entries["k"], SliceT(StringT));
    SurvivesExact(c, v, MapT(SliceT(StringT)));
  }
}
