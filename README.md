# colgen in Dafny

colgen is a code generator for Go. It reads `//colgen:` directives that name a
struct (an *entity*) and the derived methods wanted on a collection of it:
- field collectors;
- indexes;
- unique-value collectors;
- converters from another package's type.

It resolves the struct's fields and writes the source of those methods. A
second engine, the *replacer*, rewrites `//colgen@New<Entity>(arg[,full][,json])`
comments into a wrapper struct and its constructor. In full mode that struct
copies the exported fields of an imported type and can carry JSON tags.

This project models, in Dafny:

- **Directive grammar.** Trimming and dispatching directive lines, parsing
  custom rules (`Entity:UniqueTagIDs,Index(Title),MapP(db)`) and entity lists,
  merging rules per entity, sorting by entity name, and validating that only
  converters may appear without a base declaration.
  Modules `Directives`, `Patterns`, `Errors`.
- **Field model.** Shortening a field's type to its last path element, and the
  name-to-type map in which a later field wins. Module `FieldModel`.
- **Generator.** A class whose methods append to a text buffer:
  - the file header;
  - per rule, the collection type, the ID collector and index, and every
    custom method;
  - it stops at the first missing type or missing field.

  Each method is proved equal to an accumulator-style specification function
  (`HeadAfter`, `RuleAfter`, `RulesAfter`, …). Lemmas state which error
  stops generation and what text precedes it. Module `Generation`.
- **Replacer.** Parsing a replace directive, the JSON key and tag of a
  full-mode field, the list of exported fields, the rendered template, and
  the `Generate` loop that completes each parsed rule in place.
  Module `Replacement`.
- **Emitted collection methods.** The methods the generator writes, as they
  appear in the example output for `NewsList` and `Tags`: an ordered
  projection, last-wins indexes, grouping, and set-based de-duplication.
  Each is written once, generic over the element type and the field accessor.
  Module `Collections`.
- **Go standard library.** The parts of `strings`, `strconv.Quote`,
  `path.Base` and `sort` the core relies on, over strings of runes.
  Modules `Strings`, `Seqs`, `Wrappers`.

Errors carry a sentinel kind, which is what `errors.Is` tests, and the message
text `fmt.Errorf` would build.

Two behaviours of generator.go that are easy to misread:
- **Converter name.** The converter is named `New<List>` after the collection
  type, for example `NewUsers`, not after the entity. Its return type is the
  collection type, or `[]<Entity>` for an entity without base generation
  (generator.go:479-501).
- **Method-name lowering.** The lower-cased last rune is applied to every
  pluralised method name, whether or not pluralising changed it
  (generator.go:412, 448, 473). A name whose last rune is already lower case
  is unchanged, so only names that end in a capital letter are affected.

## Model

| member | source | states |
|---|---|---|
| Directives.NewEntity | pkg/colgen/generator.go:45-55 | the collection type is `<Name>List` when the suffix is forced or pluralising is a no-op, else the plural; it never equals the struct name |
| Directives.MatchNameArgShape | pkg/colgen/generator.go:152 | a line matches `^(\w+)\(([\w.]+)\)$` exactly when it is a non-empty word, `(`, a non-empty run of words and dots, `)`, and the groups are those two parts |
| Directives.NameArg | pkg/colgen/generator.go:167-171 | a token has an argument exactly when some line of it matches the name/argument expression; otherwise the whole token is the name |
| Directives.Classify | pkg/colgen/generator.go:173-194 | the switch fails, with a quoted missing-arg error, exactly for a converter or `Index` written without an argument; a `Unique` prefix is stripped into the field; every success is a well-formed custom rule |
| Directives.ClassifyOutcome | pkg/colgen/generator.go:166-194 | one token fails exactly when no line matches, it has no `Unique` prefix and it names a converter or `Index`; the error is missing-arg; otherwise the rule is well formed |
| Directives.ClassifySpecText | pkg/colgen/generator.go:166-194 | writing a well-formed custom rule as directive text and parsing the token gives the rule back |
| Directives.NameArgCall | pkg/colgen/generator.go:168-171 | `name(arg)` reads back as that name and argument |
| Directives.NameArgPlain | pkg/colgen/generator.go:167-171 | a token of words and dots has no argument and is its own name |
| Directives.CustomLineOutcome | pkg/colgen/generator.go:155-200 | a custom directive parses exactly when it has one colon and every comma token parses; it then gives one non-base rule for the entity before the colon with one custom rule per token; failures are unknown-line or missing-arg |
| Directives.ParseCustomRule | pkg/colgen/generator.go:155-200 | the loop over the tokens returns exactly the result `CustomLine` describes |
| Directives.EntitiesLineOfNames | pkg/colgen/generator.go:203-212 | a comma-joined name list parses into one base rule per name, in order |
| Directives.ParseEntities | pkg/colgen/generator.go:203-212 | the loop returns one base rule per comma-separated piece, untrimmed, in order |
| Directives.DispatchLineOutcome | pkg/colgen/generator.go:66-84 | empty lines yield nothing; a colon routes to the custom parser; otherwise a comma or the absence of a space routes to the entity list; anything else is an unknown line; every parsed rule is base-only or custom-only |
| Directives.ParseLinesPlain | pkg/colgen/generator.go:57-87 | every rule the line loop collects is a base declaration exactly when it has no custom rules, and carries no list-suffix flag yet |
| Directives.MergeIndexAt | pkg/colgen/generator.go:113-133 | the merge index has an entry exactly for each entity that occurs, and that entry is the merge of that entity's rules in input order |
| Directives.MergeIndexIsGroups | pkg/colgen/generator.go:113-133 | the index keys are the occurring entity names; each entry is its group's merge, is stored under its own name and carries the run's list-suffix flag |
| Directives.MergeGroupSnoc | pkg/colgen/generator.go:118-130 | a later rule without custom rules turns base generation on, and one with custom rules appends them |
| Directives.MergedRule | pkg/colgen/generator.go:113-133 | the merged rule of an entity has base generation iff some rule for it declared it, and holds exactly the custom rules given for it |
| Directives.MergeUnique | pkg/colgen/generator.go:136-142 | the sorted result does not depend on the order in which the index map is read |
| Directives.MergeIdempotent | pkg/colgen/generator.go:113-143 | merging an already merged list gives it back |
| Directives.MergeDistinct | pkg/colgen/generator.go:113-133 | a list with distinct entity names that already carries the flag is its own index |
| Directives.MergeRules | pkg/colgen/generator.go:113-143 | the method returns one rule per occurring entity, taken from the index, strictly sorted by entity name |
| Directives.FirstNonMap | pkg/colgen/generator.go:102-106 | the position of the first custom rule that is not a converter, or -1 when all are converters |
| Directives.Validation | pkg/colgen/generator.go:96-110 | no error iff every rule has base generation or only converters; any error is missing-main-entity |
| Directives.RuleValidation | pkg/colgen/generator.go:97-106 | one rule passes iff it has base generation or only converters |
| Directives.ValidateRule | pkg/colgen/generator.go:102-106 | the inner loop returns the error for the first non-converter custom rule of a non-base rule |
| Directives.ValidateRules | pkg/colgen/generator.go:96-110 | the loop returns the error of the first offending rule, naming the entity and the custom rule |
| Directives.ConverterOnlyExample | pkg/colgen/generator.go:96-110 | a non-base entity with only `MapP` passes validation |
| Directives.UndeclaredIndexExample | pkg/colgen/generator.go:104 | a non-base entity with `Index` fails with `missing main entity: Foo for Index` |
| Directives.MergeMeaning | pkg/colgen/generator.go:89-92 | the merged rules cover exactly the parsed entities, each with the run's flag, base generation iff declared and exactly its custom rules; validation passes iff every entity is declared or has only converters |
| Directives.ParseRules | pkg/colgen/generator.go:57-93 | a failing line gives no rules and its error; otherwise the result is the sorted merge of all parsed rules together with the validation error |
| Patterns.FirstMatch | pkg/colgen/generator.go:152 | under `(?m)` the match is that of the first matching line; there is none iff no line matches |
| Patterns.FindSingleLine | pkg/colgen/generator.go:168 | on a one-line token the search is a match of the whole token |
| Strings.TrimSpaceInfix | pkg/colgen/generator.go:60 | the trimmed line is a contiguous piece of the raw line |
| Strings.TrimSpaceDrops | pkg/colgen/generator.go:60 | only white space is removed on either side |
| Strings.TrimSpace | pkg/colgen/generator.go:60 | the trimmed line neither starts nor ends with white space |
| Strings.SplitCount | pkg/colgen/generator.go:157-158 | splitting gives one more piece than there are separators, so `len(ll) != 2` means "not exactly one colon" |
| Strings.SplitJoin | pkg/colgen/generator.go:205 | splitting a join of separator-free pieces gives the pieces back |
| Strings.Quote | pkg/colgen/generator.go:79 | `%q` yields a double-quoted literal without a raw newline |
| Strings.TrimPrefix | pkg/colgen/generator.go:177 | the prefix is removed exactly when present |
| Strings.PathBaseAfterLastSlash | pkg/colgen/generator.go:616 | the base of `dir/name` is `name` |
| Strings.PathBaseNoSlash | pkg/colgen/generator.go:616 | a path element without slashes is its own base |
| Strings.LessTransitive | pkg/colgen/generator.go:140 | the `strings.Compare` order is transitive |
| Strings.LessTotal | pkg/colgen/generator.go:140 | any two distinct strings are ordered one way or the other |
| Strings.LessIrreflexive | pkg/colgen/generator.go:140 | no string is below itself |
| Seqs.SortBy | pkg/colgen/generator.go:140 | the sort returns a permutation in ascending key order, strictly ascending when the keys are distinct |
| Seqs.StrictSortedKeysEqual | pkg/colgen/generator.go:136-140 | two strictly sorted lists over the same keys are equal |
| Seqs.LastWinsKeys | pkg/colgen/generator.go:599-601 | a map built by repeated stores has exactly the occurring keys |
| Seqs.LastWinsValue | pkg/colgen/generator.go:599-601 | a key maps to the value of the last element carrying it |
| Seqs.GroupsAreFilters | examples/main_colgen.go:30-36 | the group of each occurring key is the elements with that key in input order, and there are no other groups |
| Seqs.GroupSizesSum | examples/main_colgen.go:30-36 | grouping neither loses nor duplicates: the group sizes add up to the input length |
| Seqs.MapAll | pkg/colgen/replacer.go:87-98 | the rules all parse iff each parses; the results are the parses in order; otherwise the error is that of the first failure |
| Seqs.CollectAll | pkg/colgen/replacer.go:87-98 | the loop that stops at the first error computes `MapAll` |
| Seqs.ConcatAll | pkg/colgen/generator.go:59-87 | the line loop succeeds iff every line parses, and otherwise fails with the first failing line's error |
| Seqs.ConcatAllMembers | pkg/colgen/generator.go:86 | the collected rules are exactly those of the parsed lines |
| Seqs.FirstSomeAt | pkg/colgen/generator.go:319-323 | the loop reports the error of the first element that has one |
| Seqs.FirstSomeExists | pkg/colgen/generator.go:319-323 | an error is reported iff some element has one |
| FieldModel.TypeSlice | pkg/colgen/generator.go:607-620 | nothing for an unresolved type; otherwise each field in order keeps its name and full type, and its type becomes the last path element |
| FieldModel.TypeSliceFromType | pkg/colgen/generator.go:607-620 | rewriting the listed fields in place gives `TypeSlice` |
| FieldModel.QualifiedSliceLosesMarker | pkg/colgen/generator.go:616 | a slice of a package-qualified type loses its `[]` with the package path |
| FieldModel.UnqualifiedTypeKept | pkg/colgen/generator.go:616 | a type without a slash is kept unchanged |
| FieldModel.TypeMapFromType | pkg/colgen/generator.go:596-604 | the loop of map stores builds the last-wins map of names to short types |
| FieldModel.TypeMapMeaning | pkg/colgen/generator.go:596-604 | the field map has exactly the listed names, and each maps to the type of its last listing |
| FieldModel.TypeMapEmpty | pkg/colgen/generator.go:334-335 | the field map is empty iff the type is unresolved or has no fields |
| Generation.Lookup | pkg/colgen/generator.go:248-254 | without a package there is no type; otherwise the scope lookup |
| Generation.Fields | pkg/colgen/generator.go:334-335 | an entity's field map is empty iff there is no package, no such type or no fields |
| Generation.LastRuneToLower | pkg/colgen/generator.go:506-522 | only the last rune is lowered; length and the rest are kept |
| Generation.FirstRuneToLower | pkg/colgen/generator.go:524-533 | only the first rune is lowered; the rest is kept |
| Generation.LastRuneExamples | pkg/colgen/generator.go:505-533 | `IDS` becomes `IDs`, `Titles` is kept, `StatusID` becomes `statusID` |
| Generation.InputType | pkg/colgen/generator.go:490-494 | the converter's input type starts with the argument and is always qualified |
| Generation.MapNamingExample | pkg/colgen/generator.go:478-503 | `Map(db)` on a base entity `User` with collection type `Users` emits `func NewUsers(in []db.User) Users { return Map(in, NewUser) }` |
| Generation.LowerMapNamingExample | pkg/colgen/generator.go:478-503 | `mapp(db.Row)` on a non-base entity emits `newUserList`, returns `[]User` and calls `colgen.MapP` with `newUser` |
| Generation.OddCasingConverter | pkg/colgen/generator.go:359-382 | a converter in another casing (`MAP`) emits only a newline and is never a missing field |
| Generation.OddCasingExample | pkg/colgen/generator.go:146-149 | `MAP` is a converter name that no case of the switch matches |
| Generation.ErrorAfter | pkg/colgen/generator.go:256-265 | the first error is kept and later ones dropped; a recorded error keeps its kind, and without words it is stored unchanged |
| Generation.MissingFieldError | pkg/colgen/generator.go:357-384 | the custom-rule loop fails iff some custom rule that is not a converter names an absent field; the error is missing-field |
| Generation.MissingFieldErrorFirst | pkg/colgen/generator.go:380-382 | that error names the field of the first such custom rule |
| Generation.RuleErrorCases | pkg/colgen/generator.go:333-387 | a rule fails with missing-type iff its entity has no fields, and fails at all only then or for an absent field |
| Generation.RulesErrorSome | pkg/colgen/generator.go:319-323 | the rule loop fails iff some rule fails |
| Generation.RulesErrorFirst | pkg/colgen/generator.go:319-323 | the loop fails with the first failing rule's error, wrapped with its entity name |
| Generation.CustomsAfterError | pkg/colgen/generator.go:357-384 | the custom-rule loop's error is the first missing field, whatever the buffer held |
| Generation.RuleAfterError | pkg/colgen/generator.go:333-387 | generateByRule's error is that of `RuleError` |
| Generation.RuleAfterMissingType | pkg/colgen/generator.go:334-337 | a missing type is reported before anything is written |
| Generation.RulesAfterError | pkg/colgen/generator.go:319-323 | Generate's rule loop returns the wrapped error of the first failing rule |
| Generation.MissingFieldAfterText | pkg/colgen/generator.go:357-384 | the missing-field check runs after the rule's text and its newline are written, so the buffer keeps the text of every custom rule up to and including the failing one |
| Generation.ImportsAfterJoin | pkg/colgen/generator.go:306-311 | the import block is the quoted imports joined by newlines |
| Generation.ImportLines | pkg/colgen/generator.go:306-311 | each import lands on its own line, quoted, in order |
| Generation.Quoted | pkg/colgen/generator.go:309 | the quoted imports, one for one |
| Generation.Generator.constructor | pkg/colgen/generator.go:226-238 | the imports are the comma-separated pieces, sorted; the buffer, error and package start empty |
| Generation.Generator.UsePackageDir | pkg/colgen/generator.go:241-245 | the package and the error are the outcome of loading |
| Generation.Generator.SetError | pkg/colgen/generator.go:256-265 | only the first error is recorded |
| Generation.Generator.P | pkg/colgen/generator.go:281-285 | the text is appended and the error is unchanged |
| Generation.Generator.L | pkg/colgen/generator.go:288-291 | a newline is appended and the error is unchanged |
| Generation.Generator.T | pkg/colgen/generator.go:294-297 | the rendered text is appended and the error is unchanged |
| Generation.Generator.GenHead | pkg/colgen/generator.go:300-313 | the buffer gains the marker line, the package clause, a blank line and, if there are imports, the quoted import block |
| Generation.Generator.GenType | pkg/colgen/generator.go:397-399 | the collection type declaration is appended |
| Generation.Generator.GenField | pkg/colgen/generator.go:402-414 | the collector, named by the lowered plural of the field, is appended |
| Generation.Generator.GenIndex | pkg/colgen/generator.go:417-428 | the index method is appended |
| Generation.Generator.GenUniqueField | pkg/colgen/generator.go:431-450 | the unique collector is appended |
| Generation.Generator.GenUniqueFieldSlice | pkg/colgen/generator.go:453-475 | the flattening unique collector is appended |
| Generation.Generator.GenMap | pkg/colgen/generator.go:478-503 | the converter line between two newlines is appended |
| Generation.Generator.GenConverter | pkg/colgen/generator.go:360-365 | the four converter spellings map to `Map`/`MapP`, upper- or lower-case |
| Generation.Generator.GenFieldRule | pkg/colgen/generator.go:358-375 | `Unique` on a `[]T` field flattens, `Index` writes `IndexBy<Field>`, an unnamed rule collects |
| Generation.Generator.GenCustom | pkg/colgen/generator.go:359-377 | one pass of the switch, then a newline |
| Generation.Generator.GenBase | pkg/colgen/generator.go:343-354 | base generation writes the type and, when there is an `ID` field, its collector and index |
| Generation.Generator.GenCustoms | pkg/colgen/generator.go:357-384 | the custom-rule loop writes each rule's text and stops at the first missing field |
| Generation.Generator.GenerateByRule | pkg/colgen/generator.go:333-387 | the buffer and error are those of `RuleAfter`: a missing type, or the base text followed by the custom loop |
| Generation.Generator.Generate | pkg/colgen/generator.go:316-325 | after the header and a newline, every rule is generated until the first failure; output is withheld iff some rule fails, and the error is the first failing rule's, wrapped with its entity name |
| Replacement.ApplyFlags | pkg/colgen/replacer.go:56-70 | the flags are accepted iff each is `full` or `json`, and each sets its field; otherwise the error names the first unknown flag |
| Replacement.Qualify | pkg/colgen/replacer.go:78-80 | the argument gains `.Entity` exactly when it has no dot |
| Replacement.ParseReplaceMeaning | pkg/colgen/replacer.go:46-85 | a rule parses iff some line matches and its flags are `full`/`json` with `json` only alongside `full`; the argument is then qualified and the flags set by their presence; with no matching line the error is unknown-line naming the rule, with a bad flag it is unknown-line naming the first bad flag, and with `json` but no `full` it is missing-arg `full` |
| Replacement.FirstUnknownFlag | pkg/colgen/replacer.go:56-68 | the flag loop stops at, and its error names, the first flag that is neither `full` nor `json` |
| Replacement.ParseReplaceRule | pkg/colgen/replacer.go:46-85 | the method returns the rule and error that `ParseReplace` describes |
| Replacement.ParseGroups | pkg/colgen/replacer.go:53-84 | the argument-list loop, the json-without-full check and the qualification |
| Replacement.ParseReplaceRules | pkg/colgen/replacer.go:87-98 | every rule parsed in order, or nothing and the first error |
| Replacement.MatchReplaceBuild | pkg/colgen/replacer.go:39 | marker, command, entity and argument list in that order match the directive expression |
| Replacement.MatchReplaceParts | pkg/colgen/replacer.go:39 | every matching line has that shape |
| Replacement.ParseDirectiveText | pkg/colgen/replacer.go:46-85 | writing a directive, with `new` in any casing, and parsing it back gives the rule it describes, or missing-arg for `json` without `full` |
| Replacement.ParseCallExample | pkg/colgen/replacer_test.go:22-33 | `//colgen@NewCall(db)` parses to command `New`, entity `Call`, argument `db.Call` |
| Replacement.ParseUserSummaryExample | pkg/colgen/replacer_test.go:35-50 | `//colgen@newUserSummary(dating.User,full,json)` parses to a full rule with JSON tags |
| Replacement.JSONKey | pkg/colgen/replacer.go:146-158 | the key never ends in `ID`; `ID` stands for `<Entity>Id`; the first rune is lowered, a trailing `ID` becomes `Id`, and the runes in between are kept |
| Replacement.StatusKeyExample | pkg/colgen/replacer.go:146-158 | `StatusID` keys as `statusId` |
| Replacement.IdKeyExample | pkg/colgen/replacer.go:150-152 | `ID` of `UserSummary` keys as `userSummaryId` |
| Replacement.KeyOfWords | pkg/colgen/replacer.go:146-158 | the key of identifier names is an identifier |
| Replacement.TagOfWords | pkg/colgen/replacer.go:161 | for identifier names the tag is the key in plain double quotes |
| Replacement.IdTagExample | pkg/colgen/replacer.go:146-161 | the `ID` field of `UserSummary` is tagged `` `json:"userSummaryId"` `` |
| Replacement.NewFieldsMeaning | pkg/colgen/replacer.go:133-168 | nothing outside full mode; in full mode every exported field and only those, with name and short type, and tags empty without JSON |
| Replacement.NewFields | pkg/colgen/replacer.go:133-168 | the loop copies the exported fields in order with their tags |
| Replacement.TagFor | pkg/colgen/replacer.go:144-162 | the tag written for one field |
| Replacement.NewFieldsExample | pkg/colgen/replacer.go:133-168 | an exported `ID` is kept with its entity key and an unexported `salt` is dropped |
| Replacement.StructLines | pkg/colgen/replacer.go:204-206 | one struct line per field in full mode, else one embedding line |
| Replacement.ValueLines | pkg/colgen/replacer.go:214-216 | one copied field per line in full mode, else the embedded value |
| Replacement.RenderLinesBack | pkg/colgen/replacer.go:202-224 | when names, types and tags have no line break, the rendered text has exactly the template's lines, 13 plus two per field (or plus two when not full) |
| Replacement.RenderEmbedding | pkg/colgen/replacer.go:203-219 | outside full mode the struct embeds the argument and the constructor returns nil for nil and wraps the value otherwise |
| Replacement.RenderCallExample | pkg/colgen/replacer_test.go:74-86 | the wrapper for `NewCall(db)` is rendered line by line as expected |
| Replacement.FindImported | pkg/colgen/replacer.go:114-131 | no package or an unknown name resolves to nothing, otherwise to its fields |
| Replacement.Complete | pkg/colgen/replacer.go:179-196 | a full rule fails with missing-type iff its type has no fields; on success the fields are the new fields (full) or unchanged, the replacement is the rendering, and nothing else changes |
| Replacement.GenerateMeaning | pkg/colgen/replacer.go:171-200 | a successful run keeps one rule per comment in order, each finding its comment and replaced by its own rendering |
| Replacement.Replacer.constructor | pkg/colgen/replacer.go:104-106 | no package is loaded |
| Replacement.Replacer.UsePackageDir | pkg/colgen/replacer.go:109-112 | the package is the loaded one, and a failed load leaves none and returns its error |
| Replacement.Replacer.CompleteRule | pkg/colgen/replacer.go:180-193 | the loop body computes `Complete` |
| Replacement.Replacer.CompleteAll | pkg/colgen/replacer.go:179-199 | overwriting each rule with its completion gives the completions in order, or nothing and the first error |
| Replacement.Replacer.Generate | pkg/colgen/replacer.go:171-200 | the rules are parsed and then completed; the first error, of either stage, yields nothing |
| Collections.FieldValues | examples/main_colgen.go:6-12 | one value per element, in order |
| Collections.Index | examples/main_colgen.go:14-20 | exactly the occurring keys are indexed, and each maps to the last element carrying it |
| Collections.IndexByTitleExample | examples/main_colgen.go:22-28 | of two items sharing a title the later one is kept |
| Collections.IndexByIDExample | examples/main_colgen.go:14-20 | two news items with different IDs are both indexed, each under its own ID |
| Collections.TagIndexExample | examples/main_colgen.go:82-88 | of two tags sharing an ID the later one is kept |
| Collections.UniqueTagIDsExample | examples/main_colgen.go:54-62 | tag lists `[1, 2]` and `[2, 3]` collect exactly 1, 2 and 3 |
| Collections.GroupBy | examples/main_colgen.go:30-36 | one group per occurring key, holding that key's elements in input order |
| Collections.KeySet | examples/main_colgen.go:39-44 | the set of occurring keys |
| Collections.SetToSlice | examples/main_colgen.go:46-51 | the slice holds each member of the set exactly once |
| Collections.UniqueKeys | examples/main_colgen.go:38-52 | each occurring title once, and nothing else |
| Collections.ValuesOfMeaning | examples/main_colgen.go:55-62 | a value is collected iff some element holds it |
| Collections.ValueSet | examples/main_colgen.go:55-62 | the nested loop collects the values of every element |
| Collections.UniqueValues | examples/main_colgen.go:54-70 | each tag id held by some item once, and nothing else |

## Left out

- Loading packages and walking struct types (`loadPackage`, `fillStructTypes`, generator.go:536-593) are not modelled. A loaded package is given as a map from type name to the fields that walk lists, with their full type strings and exportedness.
- The command-line tool, file scanning and the AI assistant (`cmd/colgen`, `pkg/colgen/assistant*`, `llm.go`) are not part of this model.
- `Format` (go/format) is not modelled: it formats already-generated text.
- Replacement.FindImported: the lookup is by the whole qualified name in a map. The source scans the package's imports for one whose path ends with the qualifier and then looks the name up in that import's scope. The model does not capture which of several matching imports wins. The source also splits the argument on every `.` and uses only the first two pieces, so `a.b.C` (which `[\w.,]+` admits) looks up `b` in an import whose path ends in `a`. And since the test is a plain suffix test, the qualifier `db` also matches an import path ending in `mydb`. Both fall inside the unconstrained map, and no stated property depends on them.
- Generation.Generator.T and Replacement.Render: the templates are constant and always parse, and rendering them into a buffer cannot fail, so template errors do not occur. The model writes out the text each template produces.
- Generation.Generator.P: the text is passed already formatted; `Fprintf` into a `bytes.Buffer` cannot fail.
- Strings.LowerChar: only ASCII letters are lowered; every other rune is kept, where Go's `unicode.ToLower` lowers any letter that has a lower-case form. Two generated outputs can carry such runes, and the lines below name them.
- Generation.LastRuneToLower: a custom-rule token that does not match the name/argument expression is kept whole as the field (generator.go:167-171, 192), so a field name may end in any rune. In the source a final `Ä` of the pluralised method name becomes `ä`; in the model it stays. The `utf8.RuneError` branch needs invalid UTF-8, which a string of runes cannot hold.
- Replacement.JSONKey: the key lowers the first rune of an exported field name of the imported struct (replacer.go:146-158 via `firsRuneToLower`, generator.go:524-533). For a field `Ärger` or `Имя` the source writes `json:"ärger"` / `json:"имя"`; the model keeps the capital and writes `json:"Ärger"` / `json:"Имя"`. Replacement.TagFor inherits this.
- Strings.Quote: only the short escapes (`\" \\ \n \t \r \a \b \f \v`) are modelled. Other control and non-printable runes are written as they are.
- The pluraliser (`inflection.Plural`) is a parameter of the model, not a definition.
- Go map iteration order is left unspecified: a `:|` choice in `MergeRules` and `SetToSlice`. `MergeUnique` shows the merged result does not depend on it. The order of the unique collectors is unspecified, as in the source.
- nil and empty slices are not distinguished.
- The replacer's nil-package behaviour for `findImportedType` is modelled. Type-checker objects that are not structs are not.

## Findings

None.
