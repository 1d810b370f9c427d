/** Converting typed specs to CloudFormation property documents and back, by struct tags. */
module Cfn {
  import opened Options

  // ── Documents, types and values ─────────────────────────────────────────────

  // `interface{}` as JSON knows it; the writer produces integers, the reader only sees doubles.
  datatype Doc =
    | DNull
    | DBool(flag: bool)
    | DInt(whole: int)
    | DNum(number: real)
    | DStr(text: string)
    | DArr(elements: seq<Doc>)
    | DObj(props: map<string, Doc>)

  // A struct field; `tag` is "" without a cfn tag.
  datatype FieldT = FieldT(tag: string, embedded: bool, ty: Type)

  // The Go types that occur below a spec or a status. OtherT stands for any kind that the converter
  // does not support.
  datatype Type =
    | StringT | BoolT | IntT | FloatT | JsonT | OtherT
    | PtrT(elem: Type)
    | SliceT(elem: Type)
    | MapT(elem: Type)
    | StructT(fields: seq<FieldT>)

  // VNil is the nil pointer, slice or map.
  datatype Value =
    | VString(text: string) | VBool(flag: bool) | VInt(whole: int) | VFloat(number: real) | VJson(raw: string) | VOther
    | VNil
    | VPtr(target: Value)
    | VSlice(items: seq<Value>)
    | VMap(entries: map<string, Value>)
    | VStruct(fields: seq<Value>)

  predicate HasType(v: Value, ty: Type)
    decreases ty
  {
    match ty
    case StringT => v.VString?
    case BoolT => v.VBool?
    case IntT => v.VInt?
    case FloatT => v.VFloat?
    case JsonT => v.VJson?
    case OtherT => v.VOther?
    case PtrT(e) => v.VNil? || (v.VPtr? && HasType(v.target, e))
    case SliceT(e) => v.VNil? || (v.VSlice? && forall x | x in v.items :: HasType(x, e))
    case MapT(e) => v.VNil? || (v.VMap? && forall k | k in v.entries :: HasType(v.entries[k], e))
    case StructT(fs) => v.VStruct? && HaveTypes(v.fields, fs)
  }

  predicate HaveTypes(vals: seq<Value>, fs: seq<FieldT>)
    decreases fs
  {
    |vals| == |fs| && forall i | 0 <= i < |fs| :: HasType(vals[i], fs[i].ty)
  }

  predicate HaveType(vals: seq<Value>, e: Type) {
    forall x | x in vals :: HasType(x, e)
  }

  function Zero(ty: Type): (v: Value)
    ensures HasType(v, ty)
    decreases ty
  {
    match ty
    case StringT => VString("")
    case BoolT => VBool(false)
    case IntT => VInt(0)
    case FloatT => VFloat(0.0)
    case JsonT => VJson("")
    case OtherT => VOther
    case PtrT(_) => VNil
    case SliceT(_) => VNil
    case MapT(_) => VNil
    case StructT(fs) => VStruct(Zeros(fs))
  }

  function Zeros(fs: seq<FieldT>): (vals: seq<Value>)
    ensures HaveTypes(vals, fs)
    decreases fs
  {
    if fs == [] then []
    else Zeros(fs[..|fs| - 1]) + [Zero(fs[|fs| - 1].ty)]
  }

  // The JSON library and number formatting. `double` is the float64 that the reader sees for a
  // written integer, `toInt` Go's conversion of a float64 to int64.
  datatype Codec = Codec(
    parse: string -> Option<Doc>,
    write: Doc -> string,
    double: int -> real,
    toInt: real -> int,
    showNum: real -> string,
    readInt: string -> Option<int>,
    readNum: string -> Option<real>)

  // ── Writing ─────────────────────────────────────────────────────────────────

  // An error, Go's nil for a value to leave out, or a document.
  datatype Out = Fail | Omit | Give(doc: Doc)

  /** `toCFN` */
  function To(c: Codec, v: Value, ty: Type): (out: Out)
    requires HasType(v, ty)
    ensures out.Give? ==> !out.doc.DNull?
    decreases ty, 0, 0
  {
    match ty
    case StringT => if v.text == "" then Omit else Give(DStr(v.text))
    case BoolT => Give(DBool(v.flag))
    case IntT => Give(DInt(v.whole))
    case FloatT => Give(DNum(v.number))
    case JsonT =>
      if v.raw == "" then Omit
      else (match c.parse(v.raw)
            case None => Fail
            case Some(d) => if d.DNull? then Omit else Give(d))
    case OtherT => Fail
    case PtrT(e) => if v.VNil? then Omit else To(c, v.target, e)
    case SliceT(e) =>
      if v.VNil? || v.items == [] then Omit
      else (match ToItems(c, v.items, e)
            case None => Fail
            case Some(ds) => Give(DArr(ds)))
    case MapT(e) =>
      if v.VNil? || v.entries == map[] then Omit
      else if exists k | k in v.entries :: To(c, v.entries[k], e).Fail? then Fail
      else Give(DObj(map k | k in v.entries :: Element(c, v.entries[k], e)))
    case StructT(fs) =>
      (match ToFields(c, v.fields, fs)
       case None => Fail
       case Some(m) => if m == map[] then Omit else Give(DObj(m)))
  }

  /** The elements of a list, in order; None is an error. */
  function ToItems(c: Codec, vals: seq<Value>, e: Type): Option<seq<Doc>>
    requires HaveType(vals, e)
    decreases e, 1, |vals|
  {
    if vals == [] then Some([])
    else
      var n := |vals| - 1;
      match ToItems(c, vals[..n], e)
      case None => None
      case Some(ds) => if To(c, vals[n], e).Fail? then None else Some(ds + [Element(c, vals[n], e)])
  }

  /** What a list or map element becomes: it is kept even where a field would be left out. */
  function Element(c: Codec, v: Value, ty: Type): Doc
    requires HasType(v, ty)
    decreases ty, 0, 1
  {
    match To(c, v, ty)
    case Give(d) => d
    case Omit => ZeroFor(v, ty)
    case Fail => DNull
  }

  /** `zeroFor` */
  function ZeroFor(v: Value, ty: Type): Doc
    requires HasType(v, ty)
    decreases ty
  {
    match ty
    case PtrT(e) => if v.VNil? then DNull else ZeroFor(v.target, e)
    case StringT => DStr("")
    case JsonT => DObj(map[])
    case StructT(_) => DObj(map[])
    case MapT(_) => DObj(map[])
    case SliceT(_) => DArr([])
    case _ => DNull
  }

  /** What one field adds to its struct's document; None is an error. */
  function Added(c: Codec, v: Value, f: FieldT): Option<map<string, Doc>>
    requires HasType(v, f.ty)
    decreases f, 0, 0
  {
    if f.tag == "" && !f.embedded then Some(map[])
    else match To(c, v, f.ty)
      case Fail => None
      case Omit => Some(map[])
      case Give(d) =>
        if f.tag != "" then Some(map[f.tag := d])
        else if d.DObj? then Some(d.props)
        else Some(map[])
  }

  function ToFields(c: Codec, vals: seq<Value>, fs: seq<FieldT>): Option<map<string, Doc>>
    requires HaveTypes(vals, fs)
    decreases fs, 0, 0
  {
    if fs == [] then Some(map[])
    else
      var n := |fs| - 1;
      match (ToFields(c, vals[..n], fs[..n]), Added(c, vals[n], fs[n]))
      case (Some(m), Some(a)) => Some(m + a)
      case _ => None
  }

  // ── The wire ────────────────────────────────────────────────────────────────

  /** Marshalled and read back, a document has its integers as doubles. */
  function Wire(c: Codec, d: Doc): Doc
    decreases d
  {
    match d
    case DInt(i) => DNum(c.double(i))
    case DArr(xs) => DArr(WireAll(c, xs))
    case DObj(m) => DObj(map k | k in m :: Wire(c, m[k]))
    case _ => d
  }

  function WireAll(c: Codec, ds: seq<Doc>): seq<Doc>
    decreases ds
  {
    if ds == [] then [] else WireAll(c, ds[..|ds| - 1]) + [Wire(c, ds[|ds| - 1])]
  }

  // ── Reading ─────────────────────────────────────────────────────────────────

  /** `fromCFN`: the target afterwards, or None for an error. */
  function From(c: Codec, src: Doc, dst: Value, ty: Type): (r: Option<Value>)
    requires HasType(dst, ty)
    ensures r.Some? ==> HasType(r.value, ty)
    decreases ty, 0, 0
  {
    if src.DNull? then Some(dst)
    else match ty
      case PtrT(e) =>
        (match From(c, src, if dst.VNil? then Zero(e) else dst.target, e)
         case None => None
         case Some(w) => Some(VPtr(w)))
      case JsonT => Some(VJson(c.write(src)))
      case StructT(fs) =>
        if !src.DObj? then None
        else (match FromFields(c, src.props, dst.fields, fs)
              case None => None
              case Some(vals) => Some(VStruct(vals)))
      case SliceT(e) =>
        if !src.DArr? then None
        else (match FromItems(c, src.elements, e)
              case None => None
              case Some(vals) => Some(VSlice(vals)))
      case MapT(e) =>
        if !src.DObj? || exists k | k in src.props :: From(c, src.props[k], Zero(e), e).None? then None
        else Some(VMap(map k | k in src.props :: From(c, src.props[k], Zero(e), e).value))
      case StringT =>
        (match src
         case DStr(t) => Some(VString(t))
         case DNum(n) => Some(VString(c.showNum(n)))
         case DBool(b) => Some(VString(if b then "true" else "false"))
         case _ => Some(VString(c.write(src))))
      case BoolT =>
        (match src
         case DBool(b) => Some(VBool(b))
         case DStr(t) => Some(VBool(t == "true"))
         case _ => None)
      case IntT =>
        (match src
         case DNum(n) => Some(VInt(c.toInt(n)))
         case DStr(t) => (match c.readInt(t) case None => None case Some(i) => Some(VInt(i)))
         case _ => None)
      case FloatT =>
        (match src
         case DNum(n) => Some(VFloat(n))
         case DStr(t) => (match c.readNum(t) case None => None case Some(n) => Some(VFloat(n)))
         case _ => None)
      case OtherT => None
  }

  /** The elements of a list, each read into a zero value. */
  function FromItems(c: Codec, ds: seq<Doc>, e: Type): (r: Option<seq<Value>>)
    ensures r.Some? ==> HaveType(r.value, e) && |r.value| == |ds|
    decreases e, 1, |ds|
  {
    if ds == [] then Some([])
    else
      var n := |ds| - 1;
      match (FromItems(c, ds[..n], e), From(c, ds[n], Zero(e), e))
      case (Some(vals), Some(v)) => Some(vals + [v])
      case _ => None
  }

  /** One field of a struct, read from the properties of the struct's document. */
  function FromField(c: Codec, m: map<string, Doc>, dst: Value, f: FieldT): (r: Option<Value>)
    requires HasType(dst, f.ty)
    ensures r.Some? ==> HasType(r.value, f.ty)
    decreases f, 0, 0
  {
    if f.tag == "" then (if f.embedded then From(c, DObj(m), dst, f.ty) else Some(dst))
    else if f.tag !in m || m[f.tag].DNull? then Some(dst)
    else From(c, m[f.tag], dst, f.ty)
  }

  function FromFields(c: Codec, m: map<string, Doc>, dsts: seq<Value>, fs: seq<FieldT>): (r: Option<seq<Value>>)
    requires HaveTypes(dsts, fs)
    ensures r.Some? ==> HaveTypes(r.value, fs)
    decreases fs, 0, 0
  {
    if fs == [] then Some([])
    else
      var n := |fs| - 1;
      match (FromFields(c, m, dsts[..n], fs[..n]), FromField(c, m, dsts[n], fs[n]))
      case (Some(vals), Some(v)) => Some(vals + [v])
      case _ => None
  }

  // ── The loops ───────────────────────────────────────────────────────────────

  /** `toCFN` as it runs. */
  method Convert(c: Codec, v: Value, ty: Type) returns (out: Out)
    requires HasType(v, ty)
    ensures out == To(c, v, ty)
    decreases ty, 2
  {
    match ty
    case PtrT(e) =>
      if v.VNil? { out := Omit; } else { out := Convert(c, v.target, e); }
    case StructT(fs) => out := WriteStruct(c, v, fs);
    case SliceT(e) =>
      if v.VNil? || v.items == [] { out := Omit; } else { out := WriteList(c, v, e); }
    case MapT(e) =>
      if v.VNil? || v.entries == map[] { out := Omit; } else { out := WriteMap(c, v, e); }
    case _ => out := To(c, v, ty);
  }

  method WriteStruct(c: Codec, v: Value, fs: seq<FieldT>) returns (out: Out)
    requires HasType(v, StructT(fs))
    ensures out == To(c, v, StructT(fs))
    decreases fs, 0
  {
    var props: map<string, Doc> := map[];
    for i := 0 to |fs|
      invariant ToFields(c, v.fields[..i], fs[..i]) == Some(props)
    {
      var f := fs[i];
      FieldsTo(c, v.fields, fs, i);
      assert props + map[] == props;
      if f.tag != "" || f.embedded {
        var val := Convert(c, v.fields[i], f.ty);
        if val.Fail? {
          return Fail;
        }
        if f.tag != "" {
          if val.Give? {
            assert props[f.tag := val.doc] == props + map[f.tag := val.doc];
            props := props[f.tag := val.doc];
          }
        } else if val.Give? && val.doc.DObj? {
          props := props + val.doc.props;
        }
      }
    }
    assert v.fields[..|fs|] == v.fields && fs[..|fs|] == fs;
    out := if props == map[] then Omit else Give(DObj(props));
  }

  method WriteList(c: Codec, v: Value, e: Type) returns (out: Out)
    requires HasType(v, SliceT(e)) && v.VSlice? && v.items != []
    ensures out == To(c, v, SliceT(e))
    decreases e, 3
  {
    var ds := [];
    for i := 0 to |v.items|
      invariant ToItems(c, v.items[..i], e) == Some(ds)
    {
      ItemsTo(c, v.items, e, i);
      var val := Convert(c, v.items[i], e);
      if val.Fail? {
        return Fail;
      }
      ds := ds + [if val.Give? then val.doc else ZeroFor(v.items[i], e)];
    }
    assert v.items[..|v.items|] == v.items;
    out := Give(DArr(ds));
  }

  /** The keys come in any order. */
  method WriteMap(c: Codec, v: Value, e: Type) returns (out: Out)
    requires HasType(v, MapT(e)) && v.VMap? && v.entries != map[]
    ensures out == To(c, v, MapT(e))
    decreases e, 3
  {
    var props: map<string, Doc> := map[];
    var left := v.entries.Keys;
    while left != {}
      invariant left <= v.entries.Keys && props.Keys == v.entries.Keys - left
      invariant forall k | k in props :: !To(c, v.entries[k], e).Fail? && props[k] == Element(c, v.entries[k], e)
    {
      var k :| k in left;
      var val := Convert(c, v.entries[k], e);
      if val.Fail? {
        return Fail;
      }
      props := props[k := if val.Give? then val.doc else ZeroFor(v.entries[k], e)];
      left := left - {k};
    }
    WrittenEntries(c, v, props, e);
    out := Give(DObj(props));
  }

  lemma WrittenEntries(c: Codec, v: Value, props: map<string, Doc>, e: Type)
    requires HasType(v, MapT(e)) && v.VMap? && v.entries != map[] && props.Keys == v.entries.Keys
    requires forall k | k in props :: !To(c, v.entries[k], e).Fail? && props[k] == Element(c, v.entries[k], e)
    ensures To(c, v, MapT(e)) == Give(DObj(props))
  {
    assert props == map k | k in v.entries :: Element(c, v.entries[k], e);
  }

  /** Fields are converted one after the other, and the first error ends the conversion. */
  lemma {:induction false} FieldsTo(c: Codec, vals: seq<Value>, fs: seq<FieldT>, i: nat)
    requires HaveTypes(vals, fs) && i < |fs|
    requires ToFields(c, vals[..i], fs[..i]).Some?
    ensures ToFields(c, vals[..i + 1], fs[..i + 1])
         == match Added(c, vals[i], fs[i])
            case None => None
            case Some(a) => Some(ToFields(c, vals[..i], fs[..i]).value + a)
    ensures Added(c, vals[i], fs[i]).None? ==> ToFields(c, vals, fs).None?
    decreases |fs| - i
  {
    assert vals[..i + 1][..i] == vals[..i] && fs[..i + 1][..i] == fs[..i];
    FailedFields(c, vals, fs, i + 1);
  }

  lemma {:induction false} FailedFields(c: Codec, vals: seq<Value>, fs: seq<FieldT>, i: nat)
    requires HaveTypes(vals, fs) && i <= |fs|
    ensures ToFields(c, vals[..i], fs[..i]).None? ==> ToFields(c, vals, fs).None?
    decreases |fs| - i
  {
    if i == |fs| {
      assert vals[..i] == vals && fs[..i] == fs;
    } else {
      assert vals[..i + 1][..i] == vals[..i] && fs[..i + 1][..i] == fs[..i];
      FailedFields(c, vals, fs, i + 1);
    }
  }

  lemma {:induction false} ItemsTo(c: Codec, vals: seq<Value>, e: Type, i: nat)
    requires HaveType(vals, e) && i < |vals|
    requires ToItems(c, vals[..i], e).Some?
    ensures ToItems(c, vals[..i + 1], e)
         == if To(c, vals[i], e).Fail? then None
            else Some(ToItems(c, vals[..i], e).value + [Element(c, vals[i], e)])
    ensures To(c, vals[i], e).Fail? ==> ToItems(c, vals, e).None?
  {
    assert vals[..i + 1][..i] == vals[..i];
    FailedItems(c, vals, e, i + 1);
  }

  lemma {:induction false} FailedItems(c: Codec, vals: seq<Value>, e: Type, i: nat)
    requires HaveType(vals, e) && i <= |vals|
    ensures ToItems(c, vals[..i], e).None? ==> ToItems(c, vals, e).None?
    decreases |vals| - i
  {
    if i == |vals| {
      assert vals[..i] == vals;
    } else {
      assert vals[..i + 1][..i] == vals[..i];
      FailedItems(c, vals, e, i + 1);
    }
  }

  /** `fromCFN` as it runs. */
  method Fill(c: Codec, src: Doc, dst: Value, ty: Type) returns (r: Option<Value>)
    requires HasType(dst, ty)
    ensures r == From(c, src, dst, ty)
    decreases ty, 2
  {
    if src.DNull? {
      return Some(dst);
    }
    match ty
    case PtrT(e) =>
      var w := Fill(c, src, if dst.VNil? then Zero(e) else dst.target, e);
      r := if w.None? then None else Some(VPtr(w.value));
    case StructT(fs) =>
      if src.DObj? { r := ReadStruct(c, src, dst, fs); } else { r := None; }
    case SliceT(e) =>
      if src.DArr? { r := ReadList(c, src.elements, dst, e); } else { r := None; }
    case MapT(e) =>
      if src.DObj? { r := ReadMap(c, src.props, dst, e); } else { r := None; }
    case _ => r := From(c, src, dst, ty);
  }

  method ReadStruct(c: Codec, src: Doc, dst: Value, fs: seq<FieldT>) returns (r: Option<Value>)
    requires HasType(dst, StructT(fs)) && src.DObj?
    ensures r == From(c, src, dst, StructT(fs))
    decreases fs, 0
  {
    var vals := dst.fields;
    for i := 0 to |fs|
      invariant |vals| == |fs| && forall j | i <= j < |fs| :: vals[j] == dst.fields[j]
      invariant FromFields(c, src.props, dst.fields[..i], fs[..i]) == Some(vals[..i])
    {
      FieldsFrom(c, src.props, dst.fields, fs, i);
      var w := ReadField(c, src, vals[i], fs[i]);
      if w.None? {
        return None;
      }
      PrefixUpdated(vals, i, w.value);
      vals := vals[i := w.value];
    }
    assert dst.fields[..|fs|] == dst.fields && fs[..|fs|] == fs && vals[..|fs|] == vals;
    r := Some(VStruct(vals));
  }

  lemma PrefixUpdated(vals: seq<Value>, i: nat, w: Value)
    requires i < |vals|
    ensures vals[i := w][..i + 1] == vals[..i] + [w]
  {
  }

  method ReadField(c: Codec, src: Doc, dst: Value, f: FieldT) returns (r: Option<Value>)
    requires HasType(dst, f.ty) && src.DObj?
    ensures r == FromField(c, src.props, dst, f)
    decreases f, 0
  {
    if f.tag == "" {
      if f.embedded { r := Fill(c, src, dst, f.ty); } else { r := Some(dst); }
    } else if f.tag !in src.props || src.props[f.tag].DNull? {
      r := Some(dst);
    } else {
      r := Fill(c, src.props[f.tag], dst, f.ty);
    }
  }

  method ReadList(c: Codec, ds: seq<Doc>, dst: Value, e: Type) returns (r: Option<Value>)
    requires HasType(dst, SliceT(e))
    ensures r == From(c, DArr(ds), dst, SliceT(e))
    decreases e, 3
  {
    var vals := [];
    for i := 0 to |ds|
      invariant FromItems(c, ds[..i], e) == Some(vals)
    {
      ItemsFrom(c, ds, e, i);
      var w := Fill(c, ds[i], Zero(e), e);
      if w.None? {
        return None;
      }
      vals := vals + [w.value];
    }
    assert ds[..|ds|] == ds;
    r := Some(VSlice(vals));
  }

  method ReadMap(c: Codec, m: map<string, Doc>, dst: Value, e: Type) returns (r: Option<Value>)
    requires HasType(dst, MapT(e))
    ensures r == From(c, DObj(m), dst, MapT(e))
    decreases e, 3
  {
    var entries: map<string, Value> := map[];
    var left := m.Keys;
    while left != {}
      invariant left <= m.Keys && entries.Keys == m.Keys - left
      invariant forall k | k in entries :: From(c, m[k], Zero(e), e) == Some(entries[k])
    {
      var k :| k in left;
      var w := Fill(c, m[k], Zero(e), e);
      if w.None? {
        return None;
      }
      entries := entries[k := w.value];
      left := left - {k};
    }
    ReadEntries(c, m, dst, entries, e);
    r := Some(VMap(entries));
  }

  lemma ReadEntries(c: Codec, m: map<string, Doc>, dst: Value, entries: map<string, Value>, e: Type)
    requires HasType(dst, MapT(e)) && m.Keys == entries.Keys
    ensures From(c, DObj(m), dst, MapT(e)) == Some(VMap(entries))
       <==> forall k | k in entries :: From(c, m[k], Zero(e), e) == Some(entries[k])
  {
    var r := From(c, DObj(m), dst, MapT(e));
    if r.Some? && forall k | k in entries :: From(c, m[k], Zero(e), e) == Some(entries[k]) {
      assert r.value.entries == entries;
    }
  }

  lemma {:induction false} FieldsFrom(c: Codec, m: map<string, Doc>, dsts: seq<Value>, fs: seq<FieldT>, i: nat)
    requires HaveTypes(dsts, fs) && i < |fs|
    requires FromFields(c, m, dsts[..i], fs[..i]).Some?
    ensures FromFields(c, m, dsts[..i + 1], fs[..i + 1])
         == match FromField(c, m, dsts[i], fs[i])
            case None => None
            case Some(v) => Some(FromFields(c, m, dsts[..i], fs[..i]).value + [v])
    ensures FromField(c, m, dsts[i], fs[i]).None? ==> FromFields(c, m, dsts, fs).None?
  {
    assert dsts[..i + 1][..i] == dsts[..i] && fs[..i + 1][..i] == fs[..i];
    UnreadFields(c, m, dsts, fs, i + 1);
  }

  lemma {:induction false} UnreadFields(c: Codec, m: map<string, Doc>, dsts: seq<Value>, fs: seq<FieldT>, i: nat)
    requires HaveTypes(dsts, fs) && i <= |fs|
    ensures FromFields(c, m, dsts[..i], fs[..i]).None? ==> FromFields(c, m, dsts, fs).None?
    decreases |fs| - i
  {
    if i == |fs| {
      assert dsts[..i] == dsts && fs[..i] == fs;
    } else {
      assert dsts[..i + 1][..i] == dsts[..i] && fs[..i + 1][..i] == fs[..i];
      UnreadFields(c, m, dsts, fs, i + 1);
    }
  }

  lemma {:induction false} ItemsFrom(c: Codec, ds: seq<Doc>, e: Type, i: nat)
    requires i < |ds| && FromItems(c, ds[..i], e).Some?
    ensures FromItems(c, ds[..i + 1], e)
         == match From(c, ds[i], Zero(e), e)
            case None => None
            case Some(v) => Some(FromItems(c, ds[..i], e).value + [v])
    ensures From(c, ds[i], Zero(e), e).None? ==> FromItems(c, ds, e).None?
  {
    assert ds[..i + 1][..i] == ds[..i];
    UnreadItems(c, ds, e, i + 1);
  }

  lemma {:induction false} UnreadItems(c: Codec, ds: seq<Doc>, e: Type, i: nat)
    requires i <= |ds|
    ensures FromItems(c, ds[..i], e).None? ==> FromItems(c, ds, e).None?
    decreases |ds| - i
  {
    if i == |ds| {
      assert ds[..i] == ds;
    } else {
      assert ds[..i + 1][..i] == ds[..i];
      UnreadItems(c, ds, e, i + 1);
    }
  }
}
