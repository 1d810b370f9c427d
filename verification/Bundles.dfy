/** Reading a YAML stream back: `---` lines separate documents, and empty documents are dropped. */
module Streams {
  import opened Text

  /** A document marker, section 9.1.2 of YAML 1.2.2, with nothing after it on its line. */
  predicate IsMarker(line: string) {
    StartsWith(line, "---") && forall c | c in line[3..] :: c == ' ' || c == '\t'
  }

  function Lines(text: string): seq<string> {
    SplitOn(text, '\n')
  }

  function TrimTail(lines: seq<string>): seq<string> {
    if lines != [] && lines[|lines| - 1] == "" then TrimTail(lines[..|lines| - 1]) else lines
  }

  /** Trailing empty lines are dropped from each chunk, and then the empty chunks. */
  function Tidy(chunks: seq<seq<string>>): seq<seq<string>> {
    if chunks == [] then []
    else (if TrimTail(chunks[0]) == [] then [] else [TrimTail(chunks[0])]) + Tidy(chunks[1..])
  }

  /** The documents of a stream, each as its lines. */
  function Load(text: string): seq<seq<string>> {
    Tidy(SplitWhere(Lines(text), IsMarker))
  }

  function LoadAll(texts: seq<string>): seq<seq<string>> {
    if texts == [] then [] else Load(texts[0]) + LoadAll(texts[1..])
  }

  // `text.rstrip("\n")`
  function StripNewlines(text: string): string {
    if text != "" && text[|text| - 1] == '\n' then StripNewlines(text[..|text| - 1]) else text
  }

  function Normal(text: string): string {
    StripNewlines(text) + "\n"
  }

  function Normals(texts: seq<string>): (r: seq<string>)
    ensures |r| == |texts|
  {
    if texts == [] then [] else [Normal(texts[0])] + Normals(texts[1..])
  }

  lemma {:induction false} NormalsAppend(texts: seq<string>, text: string)
    ensures Normals(texts + [text]) == Normals(texts) + [Normal(text)]
  {
    if texts == [] {
      assert texts + [text] == [text] && [text][1..] == [];
    } else {
      assert (texts + [text])[1..] == texts[1..] + [text];
      NormalsAppend(texts[1..], text);
    }
  }

  lemma {:induction false} TidyAppend(a: seq<seq<string>>, b: seq<seq<string>>)
    ensures Tidy(a + b) == Tidy(a) + Tidy(b)
  {
    if a == [] {
      assert a + b == b;
    } else {
      assert (a + b)[1..] == a[1..] + b;
      TidyAppend(a[1..], b);
    }
  }

  /** A final empty line changes nothing. */
  lemma LoadNewline(text: string)
    ensures Load(text + "\n") == Load(text)
  {
    var ls := Lines(text);
    assert text + "\n" == text + ['\n'] + "";
    SplitAtSeparator(text, '\n', "", (c: char) => c == '\n');
    assert Lines(text + "\n") == ls + [""];
    SplitAppend(ls, "", IsMarker);
    var p := SplitWhere(ls, IsMarker);
    var init, last := p[..|p| - 1], p[|p| - 1];
    assert p == init + [last];
    assert (last + [""])[..|last|] == last;
    TidyAppend(init, [last]);
    TidyAppend(init, [last + [""]]);
  }

  /** Normalising leaves exactly one newline at the end. */
  lemma {:induction false} NormalExact(body: string, n: nat)
    requires body == "" || body[|body| - 1] != '\n'
    ensures Normal(body + Repeat('\n', n)) == body + "\n"
  {
    if n == 0 {
      assert body + Repeat('\n', 0) == body;
    } else {
      NormalExact(body, n - 1);
      var text := body + Repeat('\n', n);
      assert text[..|text| - 1] == body + Repeat('\n', n - 1);
      assert text[|text| - 1] == Repeat('\n', n)[n - 1] == '\n';
    }
  }

  /** Nor does the normalisation of trailing newlines. */
  lemma {:induction false} LoadNormal(text: string)
    ensures Load(Normal(text)) == Load(text)
  {
    LoadNewline(StripNewlines(text));
    if text != "" && text[|text| - 1] == '\n' {
      var init := text[..|text| - 1];
      LoadNormal(init);
      LoadNewline(StripNewlines(init));
      LoadNewline(init);
      assert text == init + "\n";
    }
  }

  /** A marker line between two texts separates their documents. */
  lemma LoadSeparated(a: string, b: string)
    ensures Load(a + "\n" + ("---\n" + b)) == Load(a) + Load(b)
  {
    var nl := (c: char) => c == '\n';
    SplitAtSeparator(a, '\n', "---\n" + b, nl);
    assert "---\n" + b == "---" + ['\n'] + b;
    SplitAtSeparator("---", '\n', b, nl);
    SplitNone("---", nl);
    assert a + "\n" + ("---\n" + b) == a + ['\n'] + ("---\n" + b);
    assert Lines(a + "\n" + ("---\n" + b)) == Lines(a) + ["---"] + Lines(b);
    assert IsMarker("---");
    SplitAtSeparator(Lines(a), "---", Lines(b), IsMarker);
    TidyAppend(SplitWhere(Lines(a), IsMarker), SplitWhere(Lines(b), IsMarker));
  }

  /** Loading a bundle loads its files one after the other, whatever they contain. */
  lemma {:induction false} LoadBundle(texts: seq<string>)
    ensures Load(JoinWith(Normals(texts), "---\n")) == LoadAll(texts)
  {
    if texts == [] {
      assert Lines("") == [""];
      SplitNone([""], IsMarker);
      assert [""][..0] == [] && TrimTail([""]) == [];
      assert [[""]][1..] == [];
    } else {
      LoadNormal(texts[0]);
      assert LoadAll(texts) == Load(texts[0]) + LoadAll(texts[1..]);
      if |texts| > 1 {
        LoadBundle(texts[1..]);
        var a, b := StripNewlines(texts[0]), JoinWith(Normals(texts[1..]), "---\n");
        LoadSeparated(a, b);
        LoadNewline(a);
        assert Normal(texts[0]) + "---\n" + b == a + "\n" + ("---\n" + b);
      }
    }
  }

  lemma LoadOpening(body: string)
    ensures Load("---\n" + body) == Load(body)
  {
    var nl := (c: char) => c == '\n';
    assert "---\n" + body == "---" + ['\n'] + body;
    SplitAtSeparator("---", '\n', body, nl);
    SplitNone("---", nl);
    assert Lines("---\n" + body) == [] + ["---"] + Lines(body);
    assert IsMarker("---");
    SplitAtSeparator([], "---", Lines(body), IsMarker);
    TidyAppend([[]], SplitWhere(Lines(body), IsMarker));
  }

  /** The text behind an opening marker line. */
  function Body(text: string): string {
    if StartsWith(text, "---\n") then text[4..] else text
  }

  /** No marker line in the body, and some line that is not empty. */
  predicate OneDocument(text: string) {
    (forall l | l in Lines(Body(text)) :: !IsMarker(l)) && TrimTail(Lines(Body(text))) != []
  }

  function Bodies(texts: seq<string>): (r: seq<seq<string>>)
    ensures |r| == |texts|
  {
    if texts == [] then [] else [TrimTail(Lines(Body(texts[0])))] + Bodies(texts[1..])
  }

  lemma LoadOne(text: string)
    requires OneDocument(text)
    ensures Load(text) == [TrimTail(Lines(Body(text)))]
  {
    var ls := Lines(Body(text));
    SplitNone(ls, IsMarker);
    assert [ls][1..] == [] && Tidy([ls]) == [TrimTail(ls)] + Tidy([]);
    if StartsWith(text, "---\n") {
      LoadOpening(Body(text));
      assert text == "---\n" + Body(text);
    }
  }

  /** Texts without interior marker lines come back one by one. */
  lemma {:induction false} LoadAllOne(texts: seq<string>)
    requires forall t | t in texts :: OneDocument(t)
    ensures LoadAll(texts) == Bodies(texts)
  {
    if texts == [] {
    } else {
      LoadOne(texts[0]);
      LoadAllOne(texts[1..]);
    }
  }
}

/** Moving generated CRDs into one bundle per service. */
module Bundles {
  import opened Options
  import opened Text
  import opened Lexicographic
  import opened Sorting
  import opened SortedStrings
  import opened Groups
  import opened Lists
  import opened Streams

  // The manifest: the service of each generated kind. `kindOf` is the kind that the script's
  // regular expression finds in a text.
  datatype Manifest = Manifest(kindOf: string -> Option<string>, services: map<string, string>)

  /** The service a text goes to, or None when it stays. */
  function ServiceOf(m: Manifest, text: string): Option<string> {
    match m.kindOf(text)
    case None => None
    case Some(kind) => if kind in m.services then Some(m.services[kind]) else None
  }

  /** What is put into the bundles, in order: a service and a normalised text per moved file. */
  function Moves(m: Manifest, disk: map<string, string>, order: seq<string>): seq<(string, string)>
    requires forall p | p in order :: p in disk
  {
    if order == [] then []
    else
      var p := order[|order| - 1];
      Moves(m, disk, order[..|order| - 1])
      + match ServiceOf(m, disk[p]) case None => [] case Some(service) => [(service, Normal(disk[p]))]
  }

  /** The original texts that go to `service`, in order. */
  function Sources(m: Manifest, disk: map<string, string>, order: seq<string>, service: string): seq<string>
    requires forall p | p in order :: p in disk
  {
    if order == [] then []
    else
      var p := order[|order| - 1];
      Sources(m, disk, order[..|order| - 1], service) + if ServiceOf(m, disk[p]) == Some(service) then [disk[p]] else []
  }

  /** The files left after those in `order` have been visited. */
  function Left(m: Manifest, disk: map<string, string>, order: seq<string>): map<string, string> {
    map p | p in disk && !(p in order && ServiceOf(m, disk[p]).Some?) :: disk[p]
  }

  function FileName(service: string): string {
    service + ".yaml"
  }

  function Stream(docs: seq<string>): string {
    JoinWith(docs, "---\n")
  }

  predicate KeyOrder(g: Group<string>, h: Group<string>) {
    AtMost(g.key, h.key)
  }

  /** The files written for some bundles, a later one over an earlier one of the same name. */
  function FilesOf(gs: seq<Group<string>>): map<string, string> {
    if gs == [] then map[]
    else FilesOf(gs[..|gs| - 1])[FileName(gs[|gs| - 1].key) := Stream(gs[|gs| - 1].items)]
  }

  datatype IndexLine = IndexLine(service: string, kinds: nat)

  function IndexLines(gs: seq<Group<string>>): (r: seq<IndexLine>)
    ensures |r| == |gs| && forall i | 0 <= i < |gs| :: r[i] == IndexLine(gs[i].key, |gs[i].items|)
  {
    seq(|gs|, i requires 0 <= i < |gs| => IndexLine(gs[i].key, |gs[i].items|))
  }

  function SumOfKinds(lines: seq<IndexLine>): nat {
    if lines == [] then 0 else SumOfKinds(lines[..|lines| - 1]) + lines[|lines| - 1].kinds
  }

  class Bundler {
    var disk: map<string, string>     // config/crd/bases
    var bundles: seq<Group<string>>
    var moved: nat
    var output: map<string, string>   // config/crd/cloudcontrol

    constructor (files: map<string, string>)
      ensures disk == files && bundles == [] && moved == 0 && output == map[]
    {
      disk, bundles, moved, output := files, [], 0, map[];
    }

    /** One file: it is moved into the bundle of its service, or stays. */
    method Visit(m: Manifest, path: string)
      requires path in disk
      modifies this`disk, this`bundles, this`moved
      ensures match ServiceOf(m, old(disk)[path])
              case None => disk == old(disk) && bundles == old(bundles) && moved == old(moved)
              case Some(service) =>
                && disk == old(disk) - {path}
                && bundles == Place(old(bundles), service, Normal(old(disk)[path]))
                && moved == old(moved) + 1
    {
      var text := disk[path];
      match ServiceOf(m, text) {
        case None =>
        case Some(service) =>
          bundles := Place(bundles, service, Normal(text));
          disk := disk - {path};
          moved := moved + 1;
      }
    }

    /** The run over the globbed paths. */
    method Collect(m: Manifest, paths: seq<string>)
      requires bundles == [] && moved == 0
      requires Unique(paths) && forall p | p in paths :: p in disk
      modifies this`disk, this`bundles, this`moved
      ensures forall p | p in SortStrings(paths) :: p in old(disk)
      ensures bundles == Grouped(Moves(m, old(disk), SortStrings(paths)))
      ensures disk == Left(m, old(disk), SortStrings(paths))
      ensures moved == Total(bundles)
    {
      SortStringsExact(paths);
      CollectSorted(m, SortStrings(paths));
    }

    /** The loop; its counter equals the number of bundled documents after every file. */
    method CollectSorted(m: Manifest, order: seq<string>)
      requires bundles == [] && moved == 0
      requires Unique(order) && forall p | p in order :: p in disk
      modifies this`disk, this`bundles, this`moved
      ensures bundles == Grouped(Moves(m, old(disk), order))
      ensures disk == Left(m, old(disk), order)
      ensures moved == Total(bundles)
    {
      ghost var start := disk;
      assert Left(m, start, order[..0]) == start;
      for i := 0 to |order|
        invariant disk == Left(m, start, order[..i])
        invariant bundles == Grouped(Moves(m, start, order[..i]))
        invariant moved == Total(bundles)
      {
        CollectStep(m, start, order, i);
        Visit(m, order[i]);
      }
      assert order[..|order|] == order;
    }

    /** One file per bundle. */
    method Write()
      requires output == map[]
      modifies this`output
      ensures output == FilesOf(Sort(bundles, KeyOrder))
    {
      var sorted := Sort(bundles, KeyOrder);
      for i := 0 to |sorted|
        invariant output == FilesOf(sorted[..i])
      {
        assert sorted[..i + 1][..i] == sorted[..i];
        output := output[FileName(sorted[i].key) := Stream(sorted[i].items)];
      }
      assert sorted[..|sorted|] == sorted;
    }

    /** The table of the index page; the counts in its lines sum to the bundled documents. */
    method Index() returns (lines: seq<IndexLine>)
      ensures lines == IndexLines(Sort(bundles, KeyOrder))
      ensures SumOfKinds(lines) == Total(bundles)
    {
      var sorted := Sort(bundles, KeyOrder);
      SortTotal(bundles, KeyOrder);
      lines := [];
      for i := 0 to |sorted|
        invariant lines == IndexLines(sorted[..i]) && SumOfKinds(lines) + Total(sorted[i..]) == Total(sorted)
      {
        ghost var before := lines;
        lines := lines + [IndexLine(sorted[i].key, |sorted[i].items|)];
        assert lines[..|lines| - 1] == before;
        assert sorted[i..][1..] == sorted[i + 1..];
      }
      assert sorted[..|sorted|] == sorted;
    }
  }

  lemma SameFile(gs: seq<Group<string>>, g: Group<string>, h: Group<string>)
    requires Keyed(gs) && g in gs && h in gs && FileName(g.key) == FileName(h.key)
    ensures g == h
  {
    assert g.key == FileName(g.key)[..|g.key|] == FileName(h.key)[..|h.key|] == h.key;
    LookupMember(gs, g);
    LookupMember(gs, h);
  }

  lemma {:induction false} FilesOfMembers(fs: seq<Group<string>>, gs: seq<Group<string>>)
    requires Keyed(gs) && forall f | f in fs :: f in gs
    ensures forall f | f in fs :: FileName(f.key) in FilesOf(fs) && FilesOf(fs)[FileName(f.key)] == Stream(f.items)
    ensures forall name | name in FilesOf(fs) :: exists f :: f in fs && name == FileName(f.key)
  {
    if fs == [] {
    } else {
      var init, last := fs[..|fs| - 1], fs[|fs| - 1];
      FilesOfMembers(init, gs);
      assert fs == init + [last] && last in fs;
      forall f | f in init && FileName(f.key) == FileName(last.key) ensures f == last {
        SameFile(gs, f, last);
      }
    }
  }

  /** Every bundle gets its own file, named after its service, with its texts between marker lines,
      and there are no other files. */
  lemma FilesExact(gs: seq<Group<string>>)
    requires Keyed(gs)
    ensures var files := FilesOf(Sort(gs, KeyOrder));
            && (forall g | g in gs :: g.key + ".yaml" in files && files[g.key + ".yaml"] == JoinWith(g.items, "---\n"))
            && (forall name | name in files :: exists g :: g in gs && name == g.key + ".yaml")
  {
    var sorted := Sort(gs, KeyOrder);
    SortKeeps(gs, KeyOrder);
    forall g | g in sorted ensures g in gs { assert g in multiset(sorted); }
    forall g | g in gs ensures g in sorted { assert g in multiset(gs); }
    FilesOfMembers(sorted, gs);
  }

  lemma KeyOrderLinear()
    ensures Linear(KeyOrder) && Transitive(KeyOrder)
  {
    AtMostLinear();
    forall g, h ensures KeyOrder(g, h) || KeyOrder(h, g) { LessTotal(g.key, h.key); }
    forall g, h, k | KeyOrder(g, h) && KeyOrder(h, k) ensures KeyOrder(g, k) {
      assert AtMost(g.key, h.key) && AtMost(h.key, k.key);
    }
  }

  /** The index has one line per bundle with the number of its documents, in strictly increasing order
      of services. */
  lemma IndexExact(gs: seq<Group<string>>)
    requires Keyed(gs)
    ensures var lines := IndexLines(Sort(gs, KeyOrder));
            && |lines| == |gs|
            && (forall g | g in gs :: IndexLine(g.key, |g.items|) in lines)
            && forall i, j | 0 <= i < j < |lines| :: Less(lines[i].service, lines[j].service)
  {
    var sorted := Sort(gs, KeyOrder);
    KeyOrderLinear();
    SortKeeps(gs, KeyOrder);
    SortSorts(gs, KeyOrder);
    KeysDistinct(gs);
    SortUnique(gs, KeyOrder);
    forall g | g in gs ensures IndexLine(g.key, |g.items|) in IndexLines(sorted) {
      var i :| 0 <= i < |sorted| && sorted[i] == g;
      assert IndexLines(sorted)[i] == IndexLine(g.key, |g.items|);
    }
    forall i, j | 0 <= i < j < |sorted| ensures Less(sorted[i].key, sorted[j].key) {
      assert KeyOrder(sorted[i], sorted[j]);
      assert sorted[i] in gs && sorted[j] in gs && sorted[i] != sorted[j];
      if sorted[i].key == sorted[j].key { SameFile(gs, sorted[i], sorted[j]); }
    }
  }

  lemma PathStays(m: Manifest, disk: map<string, string>, order: seq<string>, i: nat)
    requires Unique(order) && i < |order| && order[i] in disk
    ensures order[i] in Left(m, disk, order[..i])
  {
  }

  lemma MovesStep(m: Manifest, disk: map<string, string>, order: seq<string>, i: nat)
    requires i < |order| && forall p | p in order :: p in disk
    ensures Moves(m, disk, order[..i + 1])
            == Moves(m, disk, order[..i])
               + match ServiceOf(m, disk[order[i]]) case None => [] case Some(service) => [(service, Normal(disk[order[i]]))]
    ensures Grouped(Moves(m, disk, order[..i + 1]))
            == match ServiceOf(m, disk[order[i]])
               case None => Grouped(Moves(m, disk, order[..i]))
               case Some(service) => Place(Grouped(Moves(m, disk, order[..i])), service, Normal(disk[order[i]]))
  {
    assert order[..i + 1][..i] == order[..i];
    var before := Moves(m, disk, order[..i]);
    if ServiceOf(m, disk[order[i]]).Some? {
      assert Moves(m, disk, order[..i + 1])[..|before|] == before;
    } else {
      assert before + [] == before;
    }
  }

  lemma LeftStep(m: Manifest, disk: map<string, string>, order: seq<string>, i: nat)
    requires i < |order| && order[i] in disk
    ensures Left(m, disk, order[..i + 1])
            == if ServiceOf(m, disk[order[i]]).Some? then Left(m, disk, order[..i]) - {order[i]} else Left(m, disk, order[..i])
  {
  }

  /** One iteration of the loop, on the functions that describe its state. */
  lemma CollectStep(m: Manifest, disk: map<string, string>, order: seq<string>, i: nat)
    requires Unique(order) && i < |order| && forall p | p in order :: p in disk
    ensures order[i] in Left(m, disk, order[..i]) && Left(m, disk, order[..i])[order[i]] == disk[order[i]]
    ensures match ServiceOf(m, disk[order[i]])
            case None =>
              && Left(m, disk, order[..i + 1]) == Left(m, disk, order[..i])
              && Grouped(Moves(m, disk, order[..i + 1])) == Grouped(Moves(m, disk, order[..i]))
            case Some(service) =>
              var before := Grouped(Moves(m, disk, order[..i]));
              var after := Grouped(Moves(m, disk, order[..i + 1]));
              && Left(m, disk, order[..i + 1]) == Left(m, disk, order[..i]) - {order[i]}
              && after == Place(before, service, Normal(disk[order[i]]))
              && Total(after) == Total(before) + 1
  {
    MovesStep(m, disk, order, i);
    LeftStep(m, disk, order, i);
    PathStays(m, disk, order, i);
    if ServiceOf(m, disk[order[i]]).Some? {
      PlaceTotal(Grouped(Moves(m, disk, order[..i])), ServiceOf(m, disk[order[i]]).value, Normal(disk[order[i]]));
    }
  }

  lemma MovedCount(m: Manifest, disk: map<string, string>, order: seq<string>, i: nat)
    requires Unique(order) && i < |order| && forall p | p in order :: p in disk
    ensures |Left(m, disk, order[..i + 1])| + |Moves(m, disk, order[..i + 1])|
         == |Left(m, disk, order[..i])| + |Moves(m, disk, order[..i])|
  {
    MovesStep(m, disk, order, i);
    LeftStep(m, disk, order, i);
    PathStays(m, disk, order, i);
    var before := Left(m, disk, order[..i]);
    assert (before - {order[i]}).Keys == before.Keys - {order[i]};
  }

  lemma {:induction false} FilesCounted(m: Manifest, disk: map<string, string>, order: seq<string>, i: nat)
    requires Unique(order) && i <= |order| && forall p | p in order :: p in disk
    ensures |Left(m, disk, order[..i])| + |Moves(m, disk, order[..i])| == |disk|
  {
    if i == 0 {
      assert Left(m, disk, order[..0]) == disk;
    } else {
      FilesCounted(m, disk, order, i - 1);
      MovedCount(m, disk, order, i - 1);
    }
  }

  /** No file is lost or copied: what was on disk is left there or sits in exactly one bundle. */
  lemma FilesConserved(m: Manifest, disk: map<string, string>, order: seq<string>)
    requires Unique(order) && forall p | p in order :: p in disk
    ensures |Left(m, disk, order)| + Total(Grouped(Moves(m, disk, order))) == |disk|
  {
    GroupedExact(Moves(m, disk, order));
    FilesCounted(m, disk, order, |order|);
    assert order[..|order|] == order;
  }

  // The files whose kind the manifest assigns to a service.
  function GoesTo(m: Manifest, disk: map<string, string>, service: string): string -> bool {
    (p: string) => p in disk && m.kindOf(disk[p]).Some? && m.kindOf(disk[p]).value in m.services
                   && m.services[m.kindOf(disk[p]).value] == service
  }

  predicate IsManifestFile(m: Manifest, text: string) {
    m.kindOf(text).Some? && m.kindOf(text).value in m.services
  }

  function TextsAt(disk: map<string, string>, paths: seq<string>): seq<string>
    requires forall p | p in paths :: p in disk
  {
    if paths == [] then [] else TextsAt(disk, paths[..|paths| - 1]) + [disk[paths[|paths| - 1]]]
  }

  /** The texts of a service are those of the files with a kind of the manifest that has this service,
      in the order of the visit. */
  lemma {:induction false} SourcesExact(m: Manifest, disk: map<string, string>, order: seq<string>, service: string)
    requires forall p | p in order :: p in disk
    ensures forall p | p in Filter(order, GoesTo(m, disk, service)) :: p in disk
    ensures Sources(m, disk, order, service) == TextsAt(disk, Filter(order, GoesTo(m, disk, service)))
  {
    FilterMembers(order, GoesTo(m, disk, service));
    if order == [] {
    } else {
      var init, last := order[..|order| - 1], order[|order| - 1];
      SourcesExact(m, disk, init, service);
      var kept := Filter(init, GoesTo(m, disk, service));
      assert GoesTo(m, disk, service)(last) <==> ServiceOf(m, disk[last]) == Some(service);
      if GoesTo(m, disk, service)(last) {
        assert (kept + [last])[..|kept|] == kept;
      } else {
        assert kept + [] == kept;
      }
    }
  }

  /** A visited file stays on disk exactly when its kind is not in the manifest; all other files stay,
      and no file changes. */
  lemma LeftExact(m: Manifest, disk: map<string, string>, order: seq<string>)
    ensures forall p :: p in Left(m, disk, order) <==> p in disk && !(p in order && IsManifestFile(m, disk[p]))
    ensures forall p | p in Left(m, disk, order) :: Left(m, disk, order)[p] == disk[p]
  {
  }

  /** A bundle holds its service's files, normalised, in path order. */
  lemma {:induction false} BundleSources(m: Manifest, disk: map<string, string>, order: seq<string>, service: string)
    requires forall p | p in order :: p in disk
    ensures Under(Moves(m, disk, order), service) == Normals(Sources(m, disk, order, service))
  {
    if order == [] {
    } else {
      var n := |order| - 1;
      BundleSources(m, disk, order[..n], service);
      var before := Moves(m, disk, order[..n]);
      var sources := Sources(m, disk, order[..n], service);
      NormalsAppend(sources, disk[order[n]]);
      match ServiceOf(m, disk[order[n]])
      case None =>
        assert before + [] == before && sources + [] == sources;
      case Some(s) =>
        assert (before + [(s, Normal(disk[order[n]]))])[..|before|] == before;
        assert sources + [] == sources;
    }
  }

  /** Loading the file of any bundle gives back the documents of the moved files of that service,
      file after file in path order. */
  lemma BundleReload(m: Manifest, disk: map<string, string>, paths: seq<string>, g: Group<string>)
    requires Unique(paths) && forall p | p in SortStrings(paths) :: p in disk
    requires g in Grouped(Moves(m, disk, SortStrings(paths)))
    ensures Load(Stream(g.items)) == LoadAll(Sources(m, disk, SortStrings(paths), g.key))
  {
    GroupMembers(Moves(m, disk, SortStrings(paths)), g);
    BundleSources(m, disk, SortStrings(paths), g.key);
    LoadBundle(Sources(m, disk, SortStrings(paths), g.key));
  }

  /** When no moved file has an interior marker line, these are the moved files themselves, and as
      many as the index says. */
  lemma BundleRoundTrip(m: Manifest, disk: map<string, string>, paths: seq<string>, g: Group<string>)
    requires Unique(paths) && forall p | p in SortStrings(paths) :: p in disk
    requires g in Grouped(Moves(m, disk, SortStrings(paths)))
    requires forall t | t in Sources(m, disk, SortStrings(paths), g.key) :: OneDocument(t)
    ensures Load(Stream(g.items)) == Bodies(Sources(m, disk, SortStrings(paths), g.key))
    ensures |Load(Stream(g.items))| == |g.items|
  {
    BundleReload(m, disk, paths, g);
    LoadAllOne(Sources(m, disk, SortStrings(paths), g.key));
    GroupMembers(Moves(m, disk, SortStrings(paths)), g);
    BundleSources(m, disk, SortStrings(paths), g.key);
  }
}
