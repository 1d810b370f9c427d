/** Reading the printed path of a row back. */
module RowPaths {
  import opened Options
  import opened Text
  import opened Schemas
  import opened FieldTable
  import opened RowOrder

  function LastDot(text: string): (r: Option<nat>)
    ensures r.Some? ==> r.value < |text|
  {
    if text == "" then None
    else if text[|text| - 1] == '.' then Some(|text| - 1)
    else LastDot(text[..|text| - 1])
  }

  /** Cuts at the last dot and takes a `[]` before it as the array marker. */
  function PathOf(text: string): Path
    decreases |text|
  {
    if text == "" then Root
    else match LastDot(text)
      case None => Below(Root, text, false)
      case Some(i) =>
        if EndsWith(text[..i], "[]") then Below(PathOf(text[..i - 2]), text[i + 1..], true)
        else Below(PathOf(text[..i]), text[i + 1..], false)
  }

  predicate CleanName(name: string) {
    name != "" && '.' !in name && '[' !in name
  }

  predicate CleanPath(path: Path) {
    path.Below? ==> CleanName(path.name) && CleanPath(path.parent)
  }

  lemma {:induction false} LastDotFound(head: string, name: string)
    requires '.' !in name
    ensures LastDot(head + "." + name) == Some(|head|)
  {
    var text := head + "." + name;
    if name == "" {
      assert text == head + ".";
    } else {
      assert text[..|text| - 1] == head + "." + name[..|name| - 1];
      LastDotFound(head, name[..|name| - 1]);
    }
  }

  lemma CutAtDot(head: string, name: string)
    ensures var text := head + "." + name;
            text[..|head|] == head && text[|head| + 1..] == name
  {
  }

  lemma {:induction false} LastDotMissing(name: string)
    requires '.' !in name
    ensures LastDot(name).None?
  {
    if name == "" {
    } else {
      LastDotMissing(name[..|name| - 1]);
    }
  }

  lemma PathTextTail(path: Path)
    requires CleanPath(path)
    ensures path != Root ==> PathText(path) != ""
    ensures !EndsWith(PathText(path), "[]")
  {
    if path.Below? {
      var text, n := PathText(path), |PathText(path)|;
      assert text[n - |path.name|..] == path.name;
      if |path.name| >= 2 {
        assert text[n - 2] == path.name[|path.name| - 2];
      } else if n >= 2 {
        assert text[n - 2] == '.';
      }
    }
  }

  lemma ReadObjectStep(head: string, name: string)
    requires '.' !in name && head != "" && !EndsWith(head, "[]")
    ensures PathOf(head + "." + name) == Below(PathOf(head), name, false)
  {
    LastDotFound(head, name);
    CutAtDot(head, name);
  }

  lemma ReadArrayStep(head: string, name: string)
    requires '.' !in name
    ensures PathOf(head + "[]." + name) == Below(PathOf(head), name, true)
  {
    var marked := head + "[]";
    var text := marked + "." + name;
    LastDotFound(marked, name);
    CutAtDot(marked, name);
    assert head + "[]." + name == text;
    assert text[..|marked| - 2] == text[..|marked|][..|head|] == head;
  }

  /** For names without `.` and `[`, a printed path gives back its components and array markers. */
  lemma {:induction false} PathRoundTrip(path: Path)
    requires CleanPath(path)
    ensures PathOf(PathText(path)) == path
  {
    if path.Below? {
      PathRoundTrip(path.parent);
      PathTextTail(path.parent);
      if path.inArray {
        ReadArrayStep(PathText(path.parent), path.name);
      } else if path.parent != Root {
        ReadObjectStep(PathText(path.parent), path.name);
      } else {
        LastDotMissing(path.name);
      }
    }
  }

  /** Every property name in the schema is printable without ambiguity. */
  ghost predicate Clean(s: Schema) {
    && (s.items.Items? ==> Clean(s.items.schema))
    && (s.table.Table? ==> forall f | f in s.table.fields :: CleanName(f.name) && Clean(f.schema))
  }

  lemma {:induction false} AtClean(s: Schema, path: Path, required: bool, names: seq<string>)
    requires Proper(s) && Clean(s) && CleanPath(path) && At(s, path, required, names).Some?
    ensures CleanPath(At(s, path, required, names).value.path)
    decreases |names|
  {
    if names == [] {
    } else {
      var c := ChildrenOf(s);
      FindExact(c.fields, names[0]);
      AtClean(Find(c.fields, names[0]).value, Below(path, names[0], c.inArray), names[0] in c.required, names[1..]);
    }
  }

  /** No two rows of a table print the same path. */
  lemma PrintedPathsDistinct(s: Schema)
    requires Proper(s) && Clean(s)
    ensures var rows := RowsOf(Listing(s, Root, true, 0));
            forall i, j | 0 <= i < j < |rows| :: rows[i].path != rows[j].path
  {
    var ps := Listing(s, Root, true, 0);
    ListedOnceParentFirst(s);
    forall p | p in ps ensures PathOf(PathText(p.path)) == p.path {
      ListingExact(s, p);
      var names: seq<string> :| 1 <= |names| <= 6 && At(s, Root, true, names) == Some(p);
      AtClean(s, Root, true, names);
      PathRoundTrip(p.path);
    }
    forall i, j | 0 <= i < j < |ps| ensures PathText(ps[i].path) != PathText(ps[j].path) {
      assert ps[i] in ps && ps[j] in ps;
    }
  }

  /** A dot in a name makes two nodes print the same path: `a.b` at the root, and `b` below `a`. */
  lemma DottedNamesCollide()
    ensures var dotted, nested := Below(Root, "a.b", false), Below(Below(Root, "a", false), "b", false);
            dotted != nested && PathText(dotted) == PathText(nested)
  {
  }
}
