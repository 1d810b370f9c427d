# Verified model of konfig-konector's reference tooling and property converter

konfig-konector ships three Python scripts under `hack/` that turn CRD schemas and a list of
Terraform resources into the project's reference documentation, and a Go converter between typed
specs and CloudFormation documents. This project models what they compute and proves what their
output can be relied on for:

- `hack/gen-reference.py` builds an example value for every CRD schema, flattens the same schema into
  a field table, and groups the CRDs into service pages;
- `hack/parity.py` matches Terraform resources to kinds and reports the gap;
- `hack/bundle-cloudcontrol-crds.py` moves generated CRDs into one YAML bundle per service, which
  `gen-reference.py` later loads back;
- `internal/cfn/cfn.go` writes a tagged Go struct as a property document and reads documents back.

`dafny verify dfyconfig.toml` checks everything.

## Files

| file | modules |
|---|---|
| `Basics.dfy`, `Ordering.dfy` | strings and lists of the Python runtime: `split`, `join`, stable `sorted`, comprehensions, code-point order |
| `Schemas.dfy` | schema nodes, JSON values, and validation |
| `Fitting.dfy` | `fit_constraints` |
| `Example.dfy`, `ExampleValues.dfy` | `build_example`: the loop, the omission rule, both depth guards; the values it returns, described without building them |
| `Soundness.dfy`, `WellFormed.dfy` | when an example satisfies its schema |
| `SampleNames.dfy` | the shipped name heuristics |
| `FieldTable.dfy`, `RowOrder.dfy`, `RowPaths.dfy` | `flatten`: the rows, their order, their printed paths |
| `Agreement.dfy` | the example and the field table of one schema |
| `Parity.dfy`, `Headings.dfy` | candidates, coverage, counts, and the gap section |
| `Groups.dfy`, `Catalogue.dfy` | dictionaries of lists; the service catalogue |
| `Bundles.dfy` | YAML streams and bundling |
| `Cfn.dfy` | `toCFN` and `fromCFN` with their loops |
| `CfnDocuments.dfy`, `CfnTargets.dfy` | which document stands for a value; what a document does to a target |
| `CfnRoundTrip.dfy` | what a spec loses on the way through its document |

## How it is modelled

- A schema node is a record of the keywords the scripts read, with `properties` as a list of fields in
  dictionary order (`Proper` says that names are distinct). An absent `pattern`, `minLength` or
  `minItems` is represented by a value that means the same.
- The regular-expression engine, `str.lower` and the name heuristics are arbitrary functions (`Regex`,
  `Names`, `Env`). The theorems hold for all of them; `SampleNames.Shipped` is the shipped set.
- Theorems on validation assume that a text which a pattern accepts in full is also found by the
  unanchored search of that pattern (`Coherent`).
- Validation follows section 5 of draft-wright-json-schema-validation-00 for `type`, `enum`,
  `minLength`, `maxLength`, `pattern`, `minimum`, `maximum`, `minItems`, `maxItems`, `required`,
  `properties` and `additionalProperties`. As in Kubernetes, an object schema with `properties` and no
  `additionalProperties` is closed.
- Go values are a datatype with nil apart from empty, Go types a datatype of struct tags and elements.
  The JSON library is the record `Codec`: `Wire` is marshalling and parsing again, after which every
  integer is a double.
- Each loop is a method, proved equal to a function; the lemmas are about the function. Lists
  and dictionaries that the scripts update in place are fields of classes (`RowList`, `Bundler`, `Site`).
  A dictionary of lists keeps its insertion order, because ties in stable sorts depend on it.

## What the proofs found

- The guard on optional objects at `MAX_DEPTH` never fires: the skip rule in the field loop stops
  optional objects at depth 3 first (`GuardExact`).
- Ten or more nested required objects leave an example with an empty spec, since each dropped object
  empties its parent (`DeepSpecIsEmpty`).
- An example can violate its schema: `maxLength: 0`, a fractional minimum above 1, a `maximum` or a
  number's `enum` that is not read, a reference without `name`, a required child that yields nothing, a
  pattern's text cut by `maxLength` (`FailingInputs`). `SoundExact` gives the exact condition.
- An `enum` that starts with null makes its field disappear (`OmissionExact`).
- The prefix table entry `egress_only_internet_gateway` is dead, because prefixes are tried up to three
  components (`ShippedDeadKey`).
- A gap can print a heading twice: with the shipped scope, `inspector`, `inspector2_x`, `inspector_y`
  would, if Terraform had them and no kind covered them (`RepeatedHeading`); `HeadingsExact` says
  exactly when.
- A spec read back from its own desired state loses a pointer to an empty text and an empty list that
  is not nil, and gets an empty list for a nil one inside a map, but keeps an empty text inside a list
  (`LostAndKept`); `RoundTripExact` says exactly when it is unchanged.
- The generated text calls its examples full-options (`hack/gen-reference.py:616-620`); the code omits
  optional ids and deep optional objects. The model follows the code.

## Model

| member | source | states |
|---|---|---|
| Fitting.FitConstraints | hack/gen-reference.py:192-211 | The candidate loop with its break, the padding and the cut return the text that the three steps define one after the other, also for patterns that do not compile. |
| Fitting.FirstMatchIsFirst | hack/gen-reference.py:198-201 | The candidate taken is the earliest one that the pattern accepts; there is none exactly when the pattern rejects them all. |
| Fitting.FitLengthExact | hack/gen-reference.py:204-211 | Without a pattern the result has a legal length exactly when maxLength is absent, or positive and at least minLength. |
| Fitting.FitKeepsText | hack/gen-reference.py:204-211 | Without a pattern the result extends the sample, by a dash and then x's, or is a prefix of it, and equals it when its length was legal. |
| Fitting.FitPatternText | hack/gen-reference.py:194-210 | With a pattern the result is, up to the limit, the sample, or the earliest accepted candidate when the pattern compiles and rejects the sample. |
| Fitting.FitTwiceExact | hack/gen-reference.py:192-211 | Fitting is idempotent except exactly when the cut of a matching sample no longer matches and the first matching candidate cuts to something else. |
| Fitting.FitMeetsPattern | hack/gen-reference.py:194-203 | Where nothing is cut, the result matches a compilable pattern exactly when the sample or some candidate does. |
| Soundness.RequiredIdExact | hack/gen-reference.py:244-285 | A required id, fitted once as a sample and once as a value, equals the id fitted once except exactly in that cut case. |
| Example.BuildExample | hack/gen-reference.py:278-328 | The recursion with its loop filling the dictionary returns the specified value or omission for every schema, depth and required flag; `ExampleExact` says which value that is. |
| ExampleValues.ExampleExact | hack/gen-reference.py:214-328 | A call returns a value exactly when the node is not omitted and the value fits a description that builds nothing: the first choice, the text of the winning rule, the whole part of a minimum, max(minItems, 1) equal items, the map entries, the name without the ending ref, and the shown fields in order. |
| ExampleValues.TextPortrayed | hack/gen-reference.py:214-285 | The text of a string is that of a fixed rule, else for names ending in id the id sample fitted twice, else a time, else the word example. |
| ExampleValues.RefPortrayed | hack/gen-reference.py:315-318 | A reference has the one member name, holding example- and the lower-cased name without an ending ref. |
| Example.FieldsExact | hack/gen-reference.py:319-326 | An object has a member for a field exactly when the field is not skipped and yields a value, and it carries that value. |
| Example.FieldsDistinct | hack/gen-reference.py:319-326 | The members of a built object have distinct keys. |
| Example.OmissionExact | hack/gen-reference.py:278-328 | A node is omitted exactly when a predicate that builds no values says so: a null first choice, empty optional ids, arrays of omitted items, the skip rule, both guards and empty objects together. |
| Example.GuardIsDead | hack/gen-reference.py:309-324 | In every call that a run can make, moving the optional-object guard anywhere from depth 4 up leaves the result unchanged. |
| Example.GuardExact | hack/gen-reference.py:309-333 | For runs from a required root, moving or deleting the guard leaves all examples unchanged exactly when it stands at depth 4 or more, so at MAX_DEPTH it is dead code. |
| Example.NestingBound | hack/gen-reference.py:290-312 | For every schema, also with arrays nested arbitrarily, at most nine objects nest in an example; only the three values given to free-form maps are not counted. |
| Example.ChainExact | hack/gen-reference.py:311-327 | A chain of k required objects around a free-form map yields exactly k nested objects while it fits under the hard limit, and nothing at all beyond it, so the bound is reached. |
| Example.DeepSpecIsEmpty | hack/gen-reference.py:331-333 | The spec of such a document is empty exactly when the chain has more than nine links. |
| Example.SpecExact | hack/gen-reference.py:331-333 | The spec of a document is the example, and an empty object when that is missing or false in Python. |
| Soundness.TextExact | hack/gen-reference.py:281-285 | A built text validates exactly when its first enum entry is a legal text, or without a pattern its limits can be met, or with one the length fits and either nothing is cut and the pattern accepts the sample or a stock text or is found in the sample, or it is found in what the cut leaves. |
| Soundness.PatternExact | hack/gen-reference.py:194-203 | The text chosen for a pattern satisfies it exactly when the pattern compiles and accepts the sample or some stock text, or is found in the sample. |
| Soundness.NumberExact | hack/gen-reference.py:258-287 | A built number validates exactly when the minimum is whole or at most 1 and the ignored maximum and enum happen to admit it. |
| Soundness.MapExact | hack/gen-reference.py:301-308 | A free-form object validates exactly when its tag entries or its key entry suit the entry schema and cover the required names. |
| Soundness.RefExact | hack/gen-reference.py:315-318 | A reference validates exactly when name is admitted as that text and nothing else is required. |
| Soundness.FieldsSound | hack/gen-reference.py:313-327 | An object validates exactly when each required name is a kept field and each kept field's value validates. |
| Soundness.SoundExact | hack/gen-reference.py:278-328 | For every schema and call, whatever is returned validates exactly when a recursive condition on the schema holds. |
| Soundness.FailingInputs | hack/gen-reference.py:208-327 | Seven concrete schemas whose example violates them: maxLength 0, a fractional minimum, a maximum and an enum that are not read, a reference without name, an untyped required child, and a stock text cut out of its pattern. |
| WellFormed.TameExamplesValidate | hack/gen-reference.py:278-333 | For schemas with satisfiable limits, enums that start with a legal text, patterns that a stock text matches and whose matches have legal length, whole minimums, maximums above the numbers used, room for list copies and solid required fields, the example of a spec always validates. |
| SampleNames.ShippedSensible | hack/gen-reference.py:177-275 | The shipped rules never yield an empty text outside the optional id rule nor a number above 443, as the theorems on examples require. |
| SampleNames.SampleId | hack/gen-reference.py:247-250 | The loop over the id endings returns what the first listed ending of the name yields. |
| SampleNames.FirstEndingExact | hack/gen-reference.py:177-250 | The earliest ending in the table that the name has decides, and a name with none gets example-id. |
| FieldTable.Flatten | hack/gen-reference.py:355-380 | The recursion appends to the shared list exactly what the specification appends, with the source's prefixes and both child branches. |
| FieldTable.FlattenFields | hack/gen-reference.py:375-380 | The loop over sorted children appends their rows one after the other with prefix, required flag and depth. |
| FieldTable.AppendedIsListing | hack/gen-reference.py:369-380 | For schemas whose properties have names, existing rows stay and the new rows are those of the listing by component path. |
| FieldTable.TableRows | hack/gen-reference.py:383-385 | The rows of a field table are exactly those of the listing of its schema. |
| FieldTable.ListingExact | hack/gen-reference.py:371-380 | The listing consists of exactly the nodes reached by one to six property steps, with type, description and the required flag of the nearest enclosing list. |
| FieldTable.StepExact | hack/gen-reference.py:373-380 | A property step leads into a property of an object or of an untyped node, or of the objects an array declares, with the required flag of that object, and nowhere else. |
| FieldTable.RowExact | hack/gen-reference.py:355-370 | A row lists the first eight allowed values, with an ellipsis exactly when there are more, and its type cell is enum, map, array of a type or the type, each under its exact condition. |
| RowOrder.SortedFieldsByName | hack/gen-reference.py:375-379 | Children are visited in strictly increasing order of their names. |
| RowOrder.ListingIncreasing | hack/gen-reference.py:373-380 | Below any node the rows come in strictly increasing component-wise order. |
| RowOrder.ListedOnceParentFirst | hack/gen-reference.py:369-380 | Rows are strictly increasing, no node is listed twice, and the row of a node's parent comes earlier. |
| RowPaths.PathRoundTrip | hack/gen-reference.py:376-380 | For names without dot and bracket, a printed path determines its components and array markers. |
| RowPaths.PrintedPathsDistinct | hack/gen-reference.py:369-380 | No two rows of a table print the same path for such schemas. |
| RowPaths.DottedNamesCollide | hack/gen-reference.py:376-377 | A name with a dot can make two different nodes print the same path. |
| Agreement.WalksAgree | hack/gen-reference.py:290-327 | Along the keys of a built example the walk of the field table succeeds exactly when no map, undeclared reference key or array of arrays is crossed. |
| Agreement.ExamplePathsListed | hack/gen-reference.py:355-380 | A key path of an example has a row in the table of the same schema exactly when it has at most six components and crosses none of these. |
| Agreement.KeysBounded | hack/gen-reference.py:290-327 | Along property keys no path of an example crosses more than nine objects, unless it enters a free-form map. |
| Agreement.CellExact | hack/gen-reference.py:356-368 | The type cell of a node agrees with its example exactly when the example heeds the enum shown, which numbers and flags may miss and lists and objects do, and no list of texts takes a first choice that is not a text. |
| Parity.ComputeCandidates | hack/parity.py:266-281 | The loop from three components down with its break returns the specified candidates, which `CandidatesExact` describes. |
| Parity.CandidatesExact | hack/parity.py:266-281 | The name without separators comes first, an alias second, and then, exactly when a prefix of at most three components is in the table, the service of the longest one with the rest and the same with every configuration abbreviated; there are no others. |
| Parity.ReplaceExact | hack/parity.py:279-279 | Replacing a word whose occurrences cannot overlap replaces every occurrence and nothing between them. |
| Parity.AbbreviationUnique | hack/parity.py:279-279 | The abbreviated candidate is determined by the service and the rest. |
| Parity.LongestIsLongest | hack/parity.py:274-280 | The prefix used is in the table and no longer one within reach is. |
| Parity.KeyInfluenceExact | hack/parity.py:272-280 | A table key can influence the candidates of some resource exactly when it has at most three components. |
| Parity.ShippedDeadKey | hack/parity.py:136-142 | The shipped entry with four components influences no resource. |
| Parity.Cover | hack/parity.py:306-311 | The nested loops record, for each resource, its first candidate among the kinds, and nothing else. |
| Parity.FirstInIsFirst | hack/parity.py:308-311 | The recorded kind is the first candidate that exists; nothing is recorded exactly when none exists. |
| Parity.CoveredExact | hack/parity.py:306-311 | A resource is covered exactly when some candidate of it is a kind. |
| Parity.GapExact | hack/parity.py:313-316 | The gap holds, once each, the in-scope resources that are neither covered nor modelled in a parent. |
| Parity.ParentedExact | hack/parity.py:315 | The parent-modelled list is as long as the set of uncovered in-scope resources that a parent models. |
| Parity.ReportExact | hack/parity.py:313-330 | Every printed count, also those printed as differences and the two tiers, is the size of the set it names, and the classes add up to all resources. |
| Parity.PrefixTableMembers | hack/parity.py:322-332 | A prefix table has a line for exactly the prefixes in use, counting exactly the names that carry them. |
| Parity.PrefixTableTotal | hack/parity.py:322-332 | Its counts sum to the tier's total and do not increase down the table. |
| Parity.CoverageMonotone | hack/parity.py:306-316 | Adding kinds uncovers nothing, and the new gap is the old one without the newly covered names. |
| Headings.Render | hack/parity.py:334-339 | The loop with its current prefix appends a heading where the prefix changes and every name with its tier. |
| Headings.NoRepeatExact | hack/parity.py:334-339 | No heading repeats exactly when the names of each prefix stand together. |
| Headings.HeadingsExact | hack/parity.py:295-339 | For a sorted gap each prefix is headed once exactly when no name without underscore is separated from its prefix by a name that continues it with a character below the underscore. |
| Headings.UnderscoredHeadings | hack/parity.py:334-339 | Headings are unique when every name has an underscore. |
| Headings.RepeatedHeading | hack/parity.py:306-339 | Three resource names that form a gap of the report under the shipped scope and print one heading twice. |
| Headings.EntriesExact | hack/parity.py:334-339 | Read back, the section lists the gap in order, each name under its own prefix and marked with its tier. |
| Headings.GapSorted | hack/parity.py:295-316 | The gap of a report on distinct names is strictly sorted. |
| Groups.GroupedExact | hack/gen-reference.py:605 | Filling a dictionary of lists keeps each key once, with exactly its own items in order, and the sizes sum to the number of items. |
| Bundles.Bundler.Visit | hack/bundle-cloudcontrol-crds.py:18-25 | A file of a manifest kind is normalised, appended to its service's bundle, removed and counted; any other file changes nothing. |
| Bundles.Bundler.CollectSorted | hack/bundle-cloudcontrol-crds.py:16-25 | After every file the counter equals the bundled documents, and disk and bundles are those of the files seen. |
| Bundles.Bundler.Collect | hack/bundle-cloudcontrol-crds.py:16-25 | The same over the globbed paths in sorted order. |
| Bundles.Bundler.Write | hack/bundle-cloudcontrol-crds.py:26-27 | The output files are those of the sorted bundles, joined with marker lines. |
| Bundles.FilesExact | hack/bundle-cloudcontrol-crds.py:26-27 | Every bundle has its own file, named after its service, with its texts joined by marker lines, and there are no other files. |
| Bundles.Bundler.Index | hack/bundle-cloudcontrol-crds.py:28-31 | The index has a line per bundle in key order, and the counts in its lines sum to the bundled documents. |
| Bundles.IndexExact | hack/bundle-cloudcontrol-crds.py:28-31 | The index has exactly one line per bundle with the number of its documents, in strictly increasing order of services. |
| Bundles.FilesConserved | hack/bundle-cloudcontrol-crds.py:16-25 | Files left and documents bundled add up to the files there were. |
| Bundles.BundleSources | hack/bundle-cloudcontrol-crds.py:17-25 | A bundle holds the normalised texts of its service's files in path order and nothing else. |
| Bundles.SourcesExact | hack/bundle-cloudcontrol-crds.py:17-23 | The texts of a service are those of the visited files with a kind that the manifest gives this service, in order. |
| Bundles.LeftExact | hack/bundle-cloudcontrol-crds.py:17-24 | A file is removed exactly when it is visited and its kind is in the manifest; no other file changes. |
| Streams.NormalExact | hack/bundle-cloudcontrol-crds.py:23-23 | However many newlines end a text, normalising leaves exactly one. |
| Streams.LoadNormal | hack/bundle-cloudcontrol-crds.py:23 | Normalising trailing newlines does not change the documents that loading finds. |
| Streams.LoadBundle | hack/gen-reference.py:130-133 | Loading a joined bundle gives the documents of its parts in order, whatever marker lines they contain. |
| Bundles.BundleReload | hack/bundle-cloudcontrol-crds.py:17-27 | Loading any bundle file gives the documents of the moved files of that service, file after file in path order. |
| Bundles.BundleRoundTrip | hack/bundle-cloudcontrol-crds.py:17-31 | For files without interior marker lines these are the moved files themselves, as many as the index says. |
| Catalogue.Site.File | hack/gen-reference.py:597-605 | After the loop each service lists exactly the CRDs that name it, or name none and have it as their kind's controller service, other lists the rest, and the unmapped kinds are those of the rest, all in order. |
| Catalogue.FilingExact | hack/gen-reference.py:597-605 | The same of the dictionary that the specification fills. |
| Catalogue.Site.SortKinds | hack/gen-reference.py:606-607 | Each service's list is sorted by kind in place; keys stay. |
| Catalogue.KindsInOrder | hack/gen-reference.py:606-607 | Each service keeps its CRDs, and no kind comes before a smaller one. |
| Catalogue.Site.Sidebar | hack/gen-reference.py:555-562 | The sidebar lists the kinds service by service in label order. |
| Catalogue.Site.Grid | hack/gen-reference.py:574-590 | The grid shows the ranked services by label with their counts and the total on the last card. |
| Catalogue.CatalogueConserved | hack/gen-reference.py:509-655 | Every CRD is listed in the sidebar exactly once, and all totals equal the number of CRDs. |
| Catalogue.TopSize | hack/gen-reference.py:575 | The grid shows nineteen services, or all if there are fewer. |
| Catalogue.TopExact | hack/gen-reference.py:575-576 | No service on the grid has fewer kinds than a service left out. |
| Catalogue.LabelsInOrder | hack/gen-reference.py:555-576 | Sidebar groups and grid cards come in order of label, and services with one label keep their order. |
| Catalogue.TiesInOrder | hack/gen-reference.py:575-575 | The ranking keeps the order of services with equally many kinds, and the grid shows its beginning. |
| Lists.SortStable | hack/gen-reference.py:575-576 | Sorting never rearranges elements that the order does not tell apart. |
| Cfn.Convert | internal/cfn/cfn.go:69-165 | The conversion with its loops over fields, elements and entries gives what the specification gives, error or omission included, in whatever order map keys come; `DocumentExact` says which document that is. |
| CfnDocuments.DocumentExact | internal/cfn/cfn.go:69-185 | A value is written as a document exactly when the document stands for it: the same scalar, one rendered element per item or entry with empty ones in empty form, and precisely the properties of the fields that are not empty, those of embedded structs included. |
| CfnDocuments.FailExact | internal/cfn/cfn.go:69-165 | Conversion fails exactly when something written is of an unsupported kind or raw JSON that does not parse. |
| Cfn.Fill | internal/cfn/cfn.go:201-327 | Reading with its loops updates the target to what the specification says or fails when it does; `ReadExact` says to what. |
| CfnTargets.ReadExact | internal/cfn/cfn.go:201-327 | Reading into any target succeeds with a value exactly when the value follows the rules: null changes nothing, nil pointers start from zero, lists and maps are replaced, structs change field by field, and scalars take the listed conversions. |
| CfnTargets.ZeroExact | internal/cfn/cfn.go:205-208 | The value that a nil pointer, an element or an entry starts from is the one that is empty, false or nil throughout. |
| CfnTargets.FrameKept | internal/cfn/cfn.go:201-245 | Whatever the document does not mention keeps its value at every depth: untagged fields and fields whose property is absent or null, through nested and embedded structs and pointers. |
| CfnTargets.UnmentionedKept | internal/cfn/cfn.go:187-245 | Filling a status leaves each field alone that has no tag or whose property is absent or null. |
| CfnRoundTrip.OmittedExact | internal/cfn/cfn.go:69-156 | A value is left out exactly when it is empty all the way down; flags and numbers never are. |
| CfnRoundTrip.WrittenNames | internal/cfn/cfn.go:89-119 | A struct, embedded structs included, writes only properties named by its tags. |
| CfnRoundTrip.ElementExact | internal/cfn/cfn.go:120-185 | An element of a list or map comes back unchanged exactly when it is neither a nil collection nor a pointer to nil nor raw JSON that is printed differently, and its parts come back. |
| CfnRoundTrip.RoundTripExact | internal/cfn/cfn.go:54-327 | For structs whose tags are distinct, reading the desired state of a spec never fails, and gives the spec back exactly when everything left out was zero, integers fit a double, raw JSON is in printed form and no embedded pointer was nil. |
| CfnRoundTrip.LostAndKept | internal/cfn/cfn.go:120-185 | Three values that do not survive the round trip and two that do. |

## Left out

- The reconcile engine and the provider resolver: their code is not part of this model.
- The Go files under `api/` and `cmd/`, `web/main.go` and `hack/gen-helm-rbac.py`: declarations and wiring.
- Regular expressions, `str.lower`, JSON and YAML libraries, HTML, files and git: arbitrary functions, plain lists, or omitted.
- Schema: an empty `enum` list, which makes the script fail with IndexError, enum entries that are lists or objects, and negative limits are not represented.
- Schema: `oneOf`, `anyOf`, `not`, `multipleOf`, exclusive bounds, `uniqueItems` and vendor extensions, which the scripts do not read.
- Validates: numbers are reals, so rounding of very large bounds is not modelled.
- BuildExample: repeated list values are equal values; their aliasing and how YAML prints it are not modelled.
- Flatten: the description cell holds the first sentence as given and the allowed values as data, without HTML escaping.
- PathRoundTrip: names containing a dot or a bracket are outside its claim, since the path is then ambiguous (`DottedNamesCollide`).
- Load: document end markers, directives, comments, and content on the marker's own line are not modelled; trailing empty lines of a document are dropped, which a block scalar with a keep indicator would notice.
- LoadBundle: the filter on the document's `kind` and the fields read from a CRD are omitted.
- ReportExact: the numbers of kinds and of generated kinds, printed beside the modelled counts, only depend on scanning Go files.
- Cover: the Go scan that collects the set of kinds is omitted; the set is arbitrary.
- Site: the files written under `examples/` and `web/static/`, the page texts, and the spelling of labels are omitted; `title` stands for the lower-cased label.
- Fill: the target is returned instead of updated in place, so what an error leaves half filled is not modelled.
- RoundTripExact: structs in which two fields share a property name are outside its claim, as the later field then overwrites the earlier one.
- To: recursive Go types, interface values, map keys other than text, byte strings, invalid UTF-8, NaN and 32-bit overflow are not represented; all numbers that are not integers are reals.
- ShippedSensible: the sample texts and the words that select them are data, written down once in `SampleNames`; which fixed rule wins where several fit is not stated again.
- DocumentExact: as for the round trip, structs in which two fields share a property name are outside its claim.
