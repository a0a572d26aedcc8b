# ngx-translate-extract, modelled in Dafny

ngx-translate-extract scans an Angular project for translation keys and writes them to
translation files. The extractors find keys in four places:

- templates, as `'key' | translate` pipes;
- templates, as elements carrying a `translate` (or `marker`) attribute;
- TypeScript, as calls to the `marker` function imported from the marker package;
- TypeScript, as calls to a configured function name.

Each extractor produces a `TranslationCollection`. This is an ordered dictionary from key to
`{value, sourceFiles}`. The extract task does the rest:

- it runs the extractors over every input file, through an optional on-disk cache;
- it merges the results;
- for each output, it unions the result with the translations already in that output;
- it runs the configured post-processors (default values, prefix stripping, sorting by key
  or by the existing file's order);
- it compiles the result and writes it out.

The project models all of this, one module per source file:

| module | file |
|---|---|
| `Collections` | `translation_collection.dfy` |
| `JsString` | `js_string.dfy` |
| `JsArraySort` | `js_array_sort.dfy` |
| `AstHelpers` | `ast_helpers.dfy` |
| `TemplateAst` | `template_ast.dfy` |
| `Utils` | `utils.dfy` |
| `FsHelpers` | `fs_helpers.dfy` |
| `CompilerFactory` | `compiler_factory.dfy` |
| `PipeParser` | `pipe_parser.dfy` |
| `DirectiveParser` | `directive_parser.dfy` |
| `MarkerParser` | `marker_parser.dfy` |
| `FunctionParser` | `function_parser.dfy` |
| the post-processor modules | `post_processors.dfy` |
| `SortByOriginalOrder` | `sort_by_original_order.dfy` |
| `OriginalOrderNested` | `original_order_nested.dfy` |
| `Caches` | `caches.dfy` |
| `ExtractTasks` | `extract_task.dfy` |

How each part is modelled:

- **Collections.** A collection is a value: a distinct key list plus a map. Its operations
  are functions, as in the source.
- **The extractors.** Each loop that fills a collection is a method. It is proved equal to
  a specification function about which the lemmas speak.
- **Sorting by the original order.** `SortByOriginalOrder.Process` works step by step on a
  tree of key parts. It is proved against `ProcessSpec`. `OriginalOrderNested` states
  when that specification fails, what it keeps when keys nest, and where a new key
  lands among the existing ones.
- **Caches.** The file cache and the extract task are classes whose fields change in place.
- **The disk.** The file system is a `Disk` object that holds a map from path to text.

Strings are sequences of UTF-16 code units, so JavaScript's default sort order is `char`
order. `toLowerCase` maps only the ASCII letters. `trim` and `\s` use ECMAScript's
whitespace and line-terminator sets.

## Model

| member | source | states |
|---|---|---|
| Collections.Empty | src/utils/translation.collection.ts:13-15 | A new collection has no keys and no entries. |
| Collections.Has | src/utils/translation.collection.ts:77-79 | `has` is true exactly when the key is in the collection. |
| Collections.Get | src/utils/translation.collection.ts:81-83 | `get` gives the key's entry when present and `undefined` (None) exactly when it is absent. |
| Collections.Keys | src/utils/translation.collection.ts:85-87 | `keys()` lists every key of the collection once and nothing else. |
| Collections.Count | src/utils/translation.collection.ts:89-91 | `count()` is the number of keys. |
| Collections.IsEmpty | src/utils/translation.collection.ts:93-95 | `isEmpty()` holds exactly when there are no entries. |
| Collections.Put | src/utils/translation.collection.ts:23 | Assigning to the plain object replaces the entry. A new key goes to the end; a present key keeps its place. |
| Collections.PutAllKeys | src/utils/translation.collection.ts:26-35 | A run of assignments appends each key the first time it is assigned; the receiver's keys stay in front. |
| Collections.PutAllDomain | src/utils/translation.collection.ts:26-35 | After a run of assignments, the keys are the receiver's keys plus the assigned ones. |
| Collections.PutAllUnassigned | src/utils/translation.collection.ts:26-35 | A key that is never assigned keeps its entry. |
| Collections.PutAllLastWins | src/utils/translation.collection.ts:26-35 | The last assignment to a key decides its entry. |
| Collections.PutAllEntries | src/utils/translation.collection.ts:64-66 | Assigning a collection's entries, in order, to an empty object rebuilds the same collection. |
| Collections.Add | src/utils/translation.collection.ts:17-24 | `add` of a new key appends it with `{value, [sourceFile]}`. A present key keeps its value and place and gets the source file appended. No other key changes. |
| Collections.AddEachKeys | src/utils/translation.collection.ts:17-24 | After a run of `add` calls, the receiver's keys come first, then the new keys in order of first mention. |
| Collections.AddEachEntry | src/utils/translation.collection.ts:17-24 | After a run of `add` calls, a key's source files grow by one per mention. The first mention decides its value. |
| Collections.AddEachAppend | src/utils/translation.collection.ts:17-24 | Adding `a + b` is adding `a` and then `b`. |
| Collections.AddKeysSpec | src/utils/translation.collection.ts:26-35 | `addKeys` gives every listed key `{value: '', sourceFiles: [sourceFile]}`, replacing an earlier entry. Other keys are kept, and the receiver's keys stay in front. |
| Collections.AddKeysKeys | src/utils/translation.collection.ts:26-35 | After `addKeys`, the new keys follow the receiver's keys in order of first mention. |
| Collections.AddKeysEachKeys | src/utils/translation.collection.ts:26-35 | The same holds for a run of `addKeys` calls, over all groups in order. |
| Collections.AddKeysEachEntry | src/utils/translation.collection.ts:26-35 | After a run of `addKeys` calls, a mentioned key has value `''` and the given source file. Unmentioned keys are unchanged. |
| Collections.Remove | src/utils/translation.collection.ts:37-39 | `remove` drops the key. Every other key keeps its entry and relative order. |
| Collections.Filter | src/utils/translation.collection.ts:46-54 | `filter` keeps exactly the entries the callback accepts, unchanged and in their order. |
| Collections.Map | src/utils/translation.collection.ts:56-62 | `map` keeps the keys and their order and replaces each entry by the callback's result. |
| Collections.UnionSpec | src/utils/translation.collection.ts:64-66 | `union` holds both collections' keys. The argument's entries win, the receiver's keys keep their places, and the argument's new keys follow in the argument's order. |
| Collections.UnionEmpty | src/utils/translation.collection.ts:64-66 | The union of the empty collection with `c` is `c`. |
| Collections.Intersect | src/utils/translation.collection.ts:68-75 | `intersect` keeps the receiver's keys that the argument also has, with the receiver's entries and order. |
| Collections.Sort | src/utils/translation.collection.ts:97-106 | `sort` keeps every entry and only permutes the keys. |
| Collections.SortSpec | src/utils/translation.collection.ts:97-106 | With a consistent comparator (the default one is), the keys come out sorted, and keys that compare equal keep their order. |
| Collections.ToKeyValueObject | src/utils/translation.collection.ts:108-112 | `toKeyValueObject` lists each key with its value, in key order. |
| Collections.StrippedKey | src/utils/translation.collection.ts:116-123 | A key whose lower-cased form starts with the lower-cased prefix loses that many leading characters. Any other key is unchanged. |
| Collections.StripKeyPrefixDomain | src/utils/translation.collection.ts:114-130 | The keys of `stripKeyPrefix` are exactly the stripped names of the receiver's keys. |
| Collections.StripKeyPrefixLastWins | src/utils/translation.collection.ts:114-130 | When several keys strip to the same name, the entry of the last one wins. |
| Collections.StripKeyPrefixCount | src/utils/translation.collection.ts:114-130 | Stripping never adds keys. |
| Collections.StripEmptyPrefix | src/utils/translation.collection.ts:114-130 | Stripping the empty prefix gives back the collection. |
| JsString.ToLowerCase | src/utils/translation.collection.ts:116-119 | Lower-casing keeps the length and maps each ASCII capital to its small letter. |
| JsString.Trim | src/utils/utils.ts:21-23 | `trim` gives the part between the leading and trailing whitespace, and that part neither starts nor ends with whitespace. |
| JsString.TrimIdempotent | src/parsers/directive.parser.ts:54 | Trimming twice is trimming once. |
| JsString.Split | src/post-processors/sort-by-original-order.post-processor.ts:33 | `split('.')` gives at least one part, and no part holds the separator. |
| JsString.JoinSplit | src/post-processors/sort-by-original-order.post-processor.ts:54-72 | Joining the parts of a split gives back the key. |
| JsString.SplitInjective | src/post-processors/sort-by-original-order.post-processor.ts:33 | Two keys with the same parts are the same key. |
| JsString.SplitWithoutSeparator | src/post-processors/sort-by-original-order.post-processor.ts:33 | A key without a dot is its own single part. |
| JsArraySort.CompareCodeUnits | src/cache/file-cache.ts:56-57 | The default order is zero exactly on equal strings. |
| JsArraySort.CodeUnitOrderConsistent | src/utils/translation.collection.ts:97-100 | The default comparator is antisymmetric and transitive, so sorting without one is well defined. |
| JsArraySort.SortBy | src/utils/translation.collection.ts:97-100 | `sort` returns a permutation of its input. |
| JsArraySort.SortBySorted | src/utils/translation.collection.ts:97-100 | With a consistent comparator the result is sorted. |
| JsArraySort.SortByStable | src/utils/translation.collection.ts:97-100 | The sort is stable: elements that compare equal keep their original order. |
| JsArraySort.SortByDistinct | src/utils/translation.collection.ts:97-100 | Sorting neither duplicates nor merges keys. |
| AstHelpers.GetStringsFromExpression | src/utils/ast-helpers.ts:200-248 | A string literal gives its text. `a + b` gives at most one key, `a \|\| b` and `c ? a : b` at most two, and identifiers, calls, property accesses and other operators give none. |
| AstHelpers.StringsBoundedByLiterals | src/utils/ast-helpers.ts:200-248 | No expression yields more keys than it holds string literals. |
| AstHelpers.ArrayLiteralAppend | src/utils/ast-helpers.ts:205-210 | An array literal yields its elements' strings in element order. |
| AstHelpers.QuotedRoundTrip | src/utils/ast-helpers.ts:201-210 | Writing keys as an array of string literals and reading them back gives the keys. |
| AstHelpers.ConcatenationStrings | src/utils/ast-helpers.ts:212-220 | `l + r` yields a key exactly when both sides yield one, and then it is the first key of the left side joined to the first key of the right side. |
| AstHelpers.PlusChainStrings | src/utils/ast-helpers.ts:212-220 | A chain `'a' + 'b' + …` of string literals yields exactly one key: the literals joined. |
| AstHelpers.AlternativeStrings | src/utils/ast-helpers.ts:222-231 | `l \|\| r` yields one key per side that yields any: the left side's first key first, then the right side's first key. |
| AstHelpers.ConditionalStrings | src/utils/ast-helpers.ts:234-246 | `c ? l : r` yields what `l \|\| r` yields, whatever the condition. |
| AstHelpers.SpecifierMatchesFound | src/utils/ast-helpers.ts:34 | One declaration yields identifiers exactly when one of its specifiers has an identifier named `moduleName`. |
| AstHelpers.SpecifierMatchesLast | src/utils/ast-helpers.ts:34 | The last identifier a declaration yields is the local name of a specifier that imports `moduleName`. |
| AstHelpers.NamedImportIdentifiersFound | src/utils/ast-helpers.ts:31-37 | `getNamedImportIdentifiers` finds identifiers exactly when a specifier from a matching path imports the name. |
| AstHelpers.NamedImportIdentifiersLast | src/utils/ast-helpers.ts:31-37 | The last identifier found is the local name of such a specifier. |
| AstHelpers.GetNamedImportAlias | src/utils/ast-helpers.ts:65-69 | `getNamedImportAlias` is null exactly when no matching specifier exists; otherwise it is the local name of one. |
| AstHelpers.FirstArgumentStringsMembership | src/utils/ast-helpers.ts:162-176 | A string is among the extracted groups exactly when some selected call has a first argument yielding it. |
| TemplateAst.TemplateSource | src/parsers/pipe.parser.ts:83-85 | A component path (non-empty, `.ts`/`js`) has its inline template parsed; any other path has the whole source parsed. |
| TemplateAst.ComponentTemplateSource | src/parsers/directive.parser.ts:31-33 | A component whose first `t` starts `template: '<t>'`, with no quote in `<t>`, has exactly `<t>` parsed. |
| Utils.IsPathAngularComponent | src/utils/utils.ts:4-6 | The path is a component exactly when its lower-cased form contains `.ts` or ends with `js`. |
| Utils.ComponentPatternSpec | src/utils/utils.ts:4-6 | The regular-expression search succeeds exactly on those paths. |
| Utils.TemplateExec | src/utils/utils.ts:11-19 | The match is the leftmost position from which the template pattern matches, or none when no position matches. |
| Utils.ExtractComponentInlineTemplate | src/utils/utils.ts:11-19 | A non-empty result stands between two equal quotes in the source; no match gives `''`. |
| Utils.InlineTemplateLeftmost | src/utils/utils.ts:11-19 | The result is the second group of the leftmost match of the pattern. |
| Utils.InlineTemplateRoundTrip | src/utils/utils.ts:11-19 | A source whose first `t` starts `template: '<t>'` yields `<t>` when `<t>` holds no `'`, whatever precedes or follows. |
| Utils.StripBom | src/utils/utils.ts:21-23 | `stripBOM` removes the leading and trailing whitespace, and the result is its own trim. |
| Utils.StripBomIdempotent | src/utils/utils.ts:21-23 | Stripping twice is stripping once. |
| FsHelpers.NormalizeHomeDir | src/utils/fs-helpers.ts:7-12 | A leading `~` becomes the home directory followed by `/`; anything else is unchanged. |
| FsHelpers.NormalizeHomeDirIdempotent | src/utils/fs-helpers.ts:7-12 | Expanding twice is expanding once when the home directory does not start with `~`. |
| FsHelpers.NormalizeFilePath | src/utils/fs-helpers.ts:18-27 | A path outside the working directory is unchanged. A path below it starts with the directory's base name, and it has no platform separator left when that separator is not `/`. |
| FsHelpers.NormalizeCwd | src/utils/fs-helpers.ts:18-27 | The working directory itself becomes its base name. |
| FsHelpers.NormalizeBelowCwd | src/utils/fs-helpers.ts:18-27 | `cwd<sep>rel` becomes `basename(cwd)/rel`, with the separators in `rel` turned into `/`. |
| CompilerFactory.Extension | src/compilers/po.compiler.ts:8 | The gettext compiler writes `.po` files and both JSON compilers write `.json` files. |
| CompilerFactory.Create | src/compilers/compiler.factory.ts:7-18 | `pot`, `json` and `namespaced-json` build their compilers with the given options; any other name throws `Unknown format: <name>`. |
| CompilerFactory.CreateFormat | src/compilers/compiler.factory.ts:7-18 | Every compiler is what its own format name and options create. |
| PipeParser.TraverseNodesSpec | src/parsers/pipe.parser.ts:29-79 | The traversal appends the visitor's results for every node of the template in pre-order. |
| PipeParser.GetTranslatablesFromAst | src/parsers/pipe.parser.ts:148-219 | Only translate pipes inside the expression are reported, and a translate pipe at the top is reported first. Literals and opaque expressions give none. |
| PipeParser.GetTranslatablesFromAsts | src/parsers/pipe.parser.ts:221-223 | Every reported pipe is a translate pipe within one of the expressions. |
| PipeParser.TranslatablesFound | src/parsers/pipe.parser.ts:148-219 | A pipe is reported exactly when it is a translate pipe in a searched position: the top, a translate pipe's arguments, another pipe's subject and arguments, interpolations, branches, operands, map values, array elements, call arguments, keyed reads and parentheses; a condition or a call's receiver is not searched. |
| PipeParser.TranslatablesFoundAll | src/parsers/pipe.parser.ts:221-223 | Over a list of expressions, a pipe is reported exactly when it is a translate pipe searched in one of them. |
| PipeParser.GetTranslatablesFromAstsAppend | src/parsers/pipe.parser.ts:221-223 | The pipes of a list are those of each expression in turn, in order. |
| PipeParser.ParseTranslationKeysFromPipe | src/parsers/pipe.parser.ts:133-146 | Every key is a literal inside the pipe's input; a literal input gives itself. |
| PipeParser.PipeKeysFound | src/parsers/pipe.parser.ts:133-146 | A key is returned exactly when it is a literal reached through conditional branches, pipe subjects and parentheses. |
| PipeParser.PipeKeysNested | src/parsers/pipe.parser.ts:137-143 | A conditional gives its true branch's keys, then its false branch's; a pipe and a parenthesised expression give their inner expression's keys. |
| PipeParser.FindPipesInNode | src/parsers/pipe.parser.ts:100-131 | A node reports only translate pipes and `translate`/`marker` attributes. |
| PipeParser.PipesInNodeFound | src/parsers/pipe.parser.ts:100-131 | A node reports a pipe exactly when it is a translate pipe searched in the node's value, inputs or template attributes. |
| PipeParser.AttributesInNodeFound | src/parsers/pipe.parser.ts:107-110 | A node reports an attribute exactly when it is one of its own attributes named `translate` or `marker`. |
| PipeParser.Extract | src/parsers/pipe.parser.ts:82-98 | `extract` adds every key of every pipe found in the template, in document order, with value `''` and the file path. |
| PipeParser.ExtractedEntries | src/parsers/pipe.parser.ts:92-96 | The keys come in order of first mention with value `''`. Each key's source files list the path once per mention. |
| PipeParser.AllKeysFromPipes | src/parsers/pipe.parser.ts:90-96 | Every extracted key is a literal inside one of the translate pipes found. |
| PipeParser.AllKeysFound | src/parsers/pipe.parser.ts:92-96 | A key is extracted from the pipes found exactly when one of them stands for it. |
| PipeParser.TemplateKeysFound | src/parsers/pipe.parser.ts:88-96 | A key is extracted from a template exactly when a node the traversal reaches holds a translate pipe, in a searched position, that stands for the key. |
| DirectiveParser.GetAttribute | src/parsers/directive.parser.ts:104-106 | `getAttribute` gives the first attribute with one of the names; none exactly when no attribute has one. |
| DirectiveParser.GetBoundAttribute | src/parsers/directive.parser.ts:122-124 | The same for bound attributes. |
| DirectiveParser.ElementsWithTranslateAttribute | src/parsers/directive.parser.ts:64-80 | Only element-like nodes with a translate attribute or input are collected; nodes that are not element-like are not searched. |
| DirectiveParser.ElementLikeNodes | src/parsers/directive.parser.ts:64-80 | The nodes the walk reaches are element-like, and include every element-like node of the list. |
| DirectiveParser.ElementLikeNodesClosed | src/parsers/directive.parser.ts:74 | The walk descends: an element-like child of a reached node is reached. |
| DirectiveParser.Copies | src/parsers/directive.parser.ts:67-73 | A reached node is collected once per translate attribute kind it carries, and not at all when it carries none. |
| DirectiveParser.ElementsAsCopies | src/parsers/directive.parser.ts:64-80 | The collected elements are exactly the reached nodes, in document order, each repeated as `Copies` says. |
| DirectiveParser.ElementsCollected | src/parsers/directive.parser.ts:64-80 | A node is collected exactly when the walk reaches it and it carries a translate attribute or input. |
| DirectiveParser.CollectedTwice | src/parsers/directive.parser.ts:68-73 | An element with both a translate attribute and a bound one is collected twice. |
| DirectiveParser.GetTextNodes | src/parsers/directive.parser.ts:86-88 | Exactly the texts of the direct `Text` children are returned. |
| DirectiveParser.GetTextNodesAppend | src/parsers/directive.parser.ts:86-88 | The texts of two runs of children are those of each run in turn, so texts keep the children's order and multiplicity. |
| DirectiveParser.GetLiteralPrimitives | src/parsers/directive.parser.ts:130-157 | Every result is a literal inside the bound value; a literal gives itself, and calls, keyed reads and parentheses give none. |
| DirectiveParser.LiteralPrimitivesFound | src/parsers/directive.parser.ts:130-157 | A value is returned exactly when it is a literal in a visited position: interpolations, array elements, map values, a pipe's subject, both branches, both operands and an `ASTWithSource`. |
| DirectiveParser.LiteralPrimitivesFoundAll | src/parsers/directive.parser.ts:152-155 | Over a list of expressions, a value is returned exactly when it is such a literal of one of them. |
| DirectiveParser.GetLiteralPrimitivesAllAppend | src/parsers/directive.parser.ts:152-155 | The literals of a list are those of each expression in turn, in order. |
| DirectiveParser.ElementKeys | src/parsers/directive.parser.ts:38-55 | A non-empty attribute value wins. Otherwise a bound translate attribute gives exactly `GetLiteralPrimitives` of its value, and otherwise each text child gives its trimmed text, in order. |
| DirectiveParser.Extract | src/parsers/directive.parser.ts:28-58 | `extract` adds the keys of every collected element in turn, without value or source file. |
| DirectiveParser.ExtractedEntries | src/parsers/directive.parser.ts:40-55 | Keys come in order of first mention, with no value and one `undefined` source per mention. |
| MarkerParser.GetMarkerImportNameFromSource | src/parsers/marker.parser.ts:34-40 | The marker package's alias wins when truthy. Otherwise `_` from `@ngx-translate/core` is used, and `''` when neither is imported. |
| MarkerParser.Extract | src/parsers/marker.parser.ts:12-32 | Without a marker import the result is null. Otherwise every selected call's first-argument strings are added with `addKeys`. |
| MarkerParser.ExtractedEntries | src/parsers/marker.parser.ts:24-29 | The keys are exactly the strings of the selected calls' first arguments, in order, each with value `''` and the file path. |
| FunctionParser.Extract | src/parsers/function.parser.ts:12-32 | `extract` adds the first-argument strings of every call whose callee is the configured name, with `addKeys`. |
| FunctionParser.ExtractedEntries | src/parsers/function.parser.ts:18-29 | Exactly those strings are the keys, with value `''` and an `undefined` source. |
| KeyAsDefaultValue.Process | src/post-processors/key-as-default-value.post-processor.ts:7-9 | An entry with value `''` gets its key as value; the other entries and the key order are unchanged. |
| KeyAsDefaultValue.Idempotent | src/post-processors/key-as-default-value.post-processor.ts:7-9 | Applying the processor twice is applying it once. |
| KeyAsInitialDefaultValue.Process | src/post-processors/key-as-initial-default-value.post-processor.ts:7-9 | Only keys with value `''` that the existing translations lack get their key as value. |
| KeyAsInitialDefaultValue.Idempotent | src/post-processors/key-as-initial-default-value.post-processor.ts:7-9 | For fixed existing translations, applying it twice is applying it once. |
| NullAsDefaultValue.Process | src/post-processors/null-as-default-value.post-processor.ts:7-9 | A key the existing translations lack gets `{value: null, sourceFiles: []}`; the others are unchanged. |
| NullAsDefaultValue.Idempotent | src/post-processors/null-as-default-value.post-processor.ts:7-9 | For fixed existing translations, applying it twice is applying it once. |
| StripPrefix.Process | src/post-processors/strip-prefix.post-processor.ts:13-15 | Every key's stripped name is present, nothing is added, and the empty prefix changes nothing. |
| SortSensitivity.FromName | src/post-processors/sort-by-key.post-processor.ts:25-27 | Exactly the four sensitivity names are recognised. |
| SortSensitivity.Validate | src/post-processors/sort-by-key.post-processor.ts:11-17 | A valid option or `undefined` is kept, and anything else is refused with `Unknown sortSensitivity: <v>`. |
| SortSensitivity.CompareFn | src/post-processors/sort-by-original-order.post-processor.ts:31 | A collator comparator is used exactly when a sensitivity is set. |
| SortSensitivity.Create | src/post-processors/sort-by-original-order.post-processor.ts:22-28 | Both sorting post-processors' constructor accepts exactly the valid options, keeps the one given, and throws `Unknown sortSensitivity: <v>` otherwise. |
| SortByKey.Process | src/post-processors/sort-by-key.post-processor.ts:19-22 | Sorting keeps every entry and only permutes the keys. |
| SortByKey.ProcessSorted | src/post-processors/sort-by-key.post-processor.ts:19-22 | With a consistent collator, the keys come out sorted and the sort is stable. |
| SortByKey.DefaultPutsUpperFirst | src/post-processors/sort-by-key.post-processor.ts:19-22 | Without a sensitivity, keys starting with a capital come before keys starting with a small letter. |
| SortByOriginalOrder.Lookup | src/post-processors/sort-by-original-order.post-processor.ts:58 | `path[part]` finds the child of that name, or none exactly when there is no such child. |
| SortByOriginalOrder.Assign | src/post-processors/sort-by-original-order.post-processor.ts:42-44 | `path[part] = t` replaces a present child in its place or appends a new one, and no other child changes. |
| SortByOriginalOrder.InsertExisting | src/post-processors/sort-by-original-order.post-processor.ts:34-49 | An existing key replaces whatever was under its first part with a fresh chain ending in a leaf. |
| SortByOriginalOrder.InsertExtracted | src/post-processors/sort-by-original-order.post-processor.ts:53-78 | Merging an extracted key fails only with `Unexpected key: <key>`; when it fails is the lemma `OriginalOrderNested.InsertExtractedFails`. |
| SortByOriginalOrder.InsertExtractedPath | src/post-processors/sort-by-original-order.post-processor.ts:53-78 | Merging adds no path other than the key's own parts. |
| SortByOriginalOrder.BuildFromPath | src/post-processors/sort-by-original-order.post-processor.ts:34-49 | Every path of the built matrix spells an existing key. |
| SortByOriginalOrder.MergeFromPath | src/post-processors/sort-by-original-order.post-processor.ts:53-78 | Every path of the merged matrix spells an existing or an extracted key. |
| SortByOriginalOrder.MergeFromError | src/post-processors/sort-by-original-order.post-processor.ts:71-72 | A refused merge names one of the extracted keys. |
| SortByOriginalOrder.FlattenPath | src/post-processors/sort-by-original-order.post-processor.ts:106-118 | Every flattened key is the joined parts of a path of the matrix. |
| SortByOriginalOrder.Rebuild | src/post-processors/sort-by-original-order.post-processor.ts:83-89 | The rebuilt collection has the flattened keys in order, each with the extracted entry, else the existing one. |
| SortByOriginalOrder.Process | src/post-processors/sort-by-original-order.post-processor.ts:30-92 | The in-place steps (build the matrix, sort and merge the extracted keys, flatten, rebuild) compute the specification result, including its error. |
| SortByOriginalOrder.ProcessEntries | src/post-processors/sort-by-original-order.post-processor.ts:80-89 | Every result key is an existing or extracted key, with the extracted entry when there is one and the existing one otherwise. |
| SortByOriginalOrder.ProcessError | src/post-processors/sort-by-original-order.post-processor.ts:71-72 | An error names an extracted key; when `process` fails is the lemma `OriginalOrderNested.ProcessFails`. |
| SortByOriginalOrder.ProcessFlatKeys | src/post-processors/sort-by-original-order.post-processor.ts:30-92 | With no dot in any key, the existing keys keep their order and the new extracted keys follow, sorted. |
| SortByOriginalOrder.LaterExistingKeyReplacesGroup | src/post-processors/sort-by-original-order.post-processor.ts:44 | With `a.x` and `a.y` existing, only `a.y` survives: the second key's fresh group replaces the first. |
| SortByOriginalOrder.KeyBelowLeafRefused | src/post-processors/sort-by-original-order.post-processor.ts:71-72 | With `a` existing, extracting `a.b` fails with `Unexpected key: a.b`. |
| SortByOriginalOrder.ExtractedKeyJoinsGroup | src/post-processors/sort-by-original-order.post-processor.ts:53-78 | With `a.x` and `b` existing, an extracted `a.y` lands after `a.x` and before `b`. |
| SortByOriginalOrder.ExtractedGroupNameDropped | src/post-processors/sort-by-original-order.post-processor.ts:73-75 | An extracted key that names an existing group is not added. |
| SortByOriginalOrder.FlattenAsWrittenAgrees | src/post-processors/sort-by-original-order.post-processor.ts:106-118 | With one-character part names, the code as written flattens like the intended function. |
| SortByOriginalOrder.ProcessAsWrittenAgrees | src/post-processors/sort-by-original-order.post-processor.ts:106-118 | When every dot-separated part of every key is one character long, `process` with the flattening as written gives the intended result. |
| SortByOriginalOrder.FirstCharacterCounterexample | src/post-processors/sort-by-original-order.post-processor.ts:107 | With existing key `ab`, the code as written throws, while the intended flattening yields `["ab"]`. |
| OriginalOrderNested.InsertExtractedFails | src/post-processors/sort-by-original-order.post-processor.ts:57-76 | Merging one key fails exactly when a proper prefix of its parts leads to a leaf of the matrix. |
| OriginalOrderNested.MergeFromFails | src/post-processors/sort-by-original-order.post-processor.ts:53-78 | Merging the keys one by one fails exactly when some key, met after the earlier ones were merged, is blocked that way. |
| OriginalOrderNested.ProcessFails | src/post-processors/sort-by-original-order.post-processor.ts:30-92 | `process` throws exactly when, merging the sorted extracted keys into the existing keys' matrix, some key is blocked by a leaf. |
| OriginalOrderNested.BuildDistinct | src/post-processors/sort-by-original-order.post-processor.ts:34-49 | Existing keys with distinct first parts each add their own branch to the matrix, in order. |
| OriginalOrderNested.ExistingOrder | src/post-processors/sort-by-original-order.post-processor.ts:106-118 | A leaf under the branch of an existing key is flattened before every later existing key, whose first part differs. |
| OriginalOrderNested.MatrixKeys | src/post-processors/sort-by-original-order.post-processor.ts:34-80 | With distinct first parts among the existing keys and no key a dot-prefix of another, the merge succeeds, every key is flattened, and the existing keys keep their order. |
| OriginalOrderNested.ProcessNestedKeys | src/post-processors/sort-by-original-order.post-processor.ts:30-92 | Under the same conditions, `process` succeeds, keeps every existing and every extracted key, and keeps the existing keys' relative order. |
| OriginalOrderNested.InsertKeepsLead | src/post-processors/sort-by-original-order.post-processor.ts:57-76 | Merging a key never moves or reorders the children already in a group (a new part is appended), so a path through the first child of each group stays one. |
| OriginalOrderNested.MergeKeepsLead | src/post-processors/sort-by-original-order.post-processor.ts:53-78 | After all extracted keys are merged, each existing key still runs through the first child of every group of its own branch. |
| OriginalOrderNested.FlattenLeads | src/post-processors/sort-by-original-order.post-processor.ts:106-118 | The leaf reached through the first child of every group is the first key flattened from that group. |
| OriginalOrderNested.SameBranchAfter | src/post-processors/sort-by-original-order.post-processor.ts:106-118 | Another key sharing an existing key's first part is flattened after that existing key. |
| OriginalOrderNested.NewBranchAfter | src/post-processors/sort-by-original-order.post-processor.ts:106-118 | A key whose first part no existing key has is flattened after every existing key. |
| OriginalOrderNested.MatrixPlacement | src/post-processors/sort-by-original-order.post-processor.ts:34-80 | In the flattened matrix, a new extracted key comes after the existing key sharing its first part and before every later existing key, or after all existing keys when none shares its first part. |
| OriginalOrderNested.ProcessNewKeys | src/post-processors/sort-by-original-order.post-processor.ts:30-92 | Under the conditions of `ProcessNestedKeys`, `process` puts a new extracted key after the existing key sharing its first part and before every later existing key, and after all existing keys when no existing key shares its first part. |
| Caches.Disk.Read | src/cache/file-cache.ts:66 | Reading gives the file's text, or fails exactly when the file is missing. |
| Caches.LoadCache | src/cache/file-cache.ts:64-72 | A missing or unparsable file loads nothing. `null` loads an empty store, and an object loads its entries together with the original text. |
| Caches.SortByKey | src/cache/file-cache.ts:55-62 | `sortByKey` lists each entry once under its own key, keys in code-unit order. |
| Caches.PairsMapSortByKey | src/cache/file-cache.ts:55-62 | Reading the sorted entries back rebuilds the same object. |
| Caches.PersistedStoreReloads | src/cache/file-cache.ts:34-72 | What `persist` writes is what the next `readCache` loads, given a JSON codec that round-trips. |
| Caches.PersistedEntries | src/cache/file-cache.ts:35 | A persisted store holds exactly the entries used in this run. |
| Caches.FileCache.constructor | src/cache/file-cache.ts:9-15 | A new cache has nothing loaded and nothing used. |
| Caches.FileCache.CacheFilePath | src/cache/file-cache.ts:81-83 | The cache file is the configured name followed by `-ngx-translate-extract-cache.json`. |
| Caches.FileCache.TmpFile | src/cache/file-cache.ts:48 | The temporary file's name extends the cache file's name, so it is never the cache file itself. |
| Caches.FileCache.ReadCache | src/cache/file-cache.ts:64-72 | `readCache` sets the original text and the loaded store as `LoadCache` gives them. |
| Caches.FileCache.Get | src/cache/file-cache.ts:17-32 | The store is loaded on the first call only. A hit returns the stored value without running the generator; a miss returns and records the generator's value. |
| Caches.FileCache.Persist | src/cache/file-cache.ts:34-53 | Nothing is written when the text equals the loaded text. Otherwise the cache file ends up holding the new text and the temporary file is gone. |
| Caches.NullCache.Get | src/cache/null-cache.ts:5-7 | The generator's value, whatever the key. |
| Caches.NullCache.Persist | src/cache/null-cache.ts:4 | Nothing changes. |
| ExtractTasks.KeepNonEmpty | src/cli/tasks/extract.task.ts:131 | Exactly the results that are collections with at least one key are kept, in order. |
| ExtractTasks.GenerateKeeps | src/cli/tasks/extract.task.ts:124-132 | The generator keeps exactly the non-empty collections the parsers return, at most one per parser. |
| ExtractTasks.CacheKeyInjective | src/cli/tasks/extract.task.ts:123 | Two files with the same cache key are the same file with the same contents, provided neither pattern nor path holds `:`. |
| ExtractTasks.JoinedMembers | src/cli/tasks/extract.task.ts:134 | The list of all results holds exactly the per-file results. |
| ExtractTasks.Generated | src/cli/tasks/extract.task.ts:124-132 | One generator result per file, in file order. |
| ExtractTasks.CombineDomain | src/cli/tasks/extract.task.ts:142-147 | The merged collection has exactly the keys some result has. |
| ExtractTasks.CombineLastWins | src/cli/tasks/extract.task.ts:142-145 | For a key in several results, the whole entry of the last result holding it wins. |
| ExtractTasks.CombineKeepsPositions | src/cli/tasks/extract.task.ts:142-145 | A key keeps the place it got from the first result holding it. |
| ExtractTasks.ProcessAllAppend | src/cli/tasks/extract.task.ts:153-158 | Running two lists of post-processors one after the other is running their concatenation. |
| ExtractTasks.ProcessAllSucceeds | src/cli/tasks/extract.task.ts:153-158 | Without the original-order processor, post-processing cannot fail. Without prefix stripping, it keeps the key set. |
| ExtractTasks.Draft | src/cli/tasks/extract.task.ts:70 | The draft holds both key sets. An existing entry wins, extracted entries fill in the rest, and the extracted keys come first. |
| ExtractTasks.DraftWithoutExisting | src/cli/tasks/extract.task.ts:70 | Without existing translations, the draft is what was extracted. |
| ExtractTasks.OutputPath | src/cli/tasks/extract.task.ts:50-57 | A directory output gets `strings.<extension>` inside it; any other output is written as given. |
| ExtractTasks.Existing | src/cli/tasks/extract.task.ts:59-67 | With `replace` set or no file, the existing translations are empty; otherwise they are the codec's parse of the file. |
| ExtractTasks.ReplaceIgnoresExisting | src/cli/tasks/extract.task.ts:59-76 | With `replace` set, what is written does not depend on what the output held: the extracted keys post-processed against nothing. |
| ExtractTasks.SaveAll | src/cli/tasks/extract.task.ts:49-88 | Writing keeps every file already there and, when no error stops it, writes every output's path. |
| ExtractTasks.SaveAllAppend | src/cli/tasks/extract.task.ts:49-88 | One more output continues from the files the earlier ones left, unless an error stopped them. |
| ExtractTasks.ExtractTask.constructor | src/cli/tasks/extract.task.ts:28-32 | A new task has no parsers, post-processors, compiler or cache, and `replace` is set only when the option is `true`. |
| ExtractTasks.ExtractTask.SetParsers | src/cli/tasks/extract.task.ts:93-96 | Sets the parsers, leaves the other settings alone and returns the same object. |
| ExtractTasks.ExtractTask.SetCache | src/cli/tasks/extract.task.ts:98-101 | Sets the cache, leaves the other settings alone and returns the same object. |
| ExtractTasks.ExtractTask.SetPostProcessors | src/cli/tasks/extract.task.ts:103-106 | Sets the post-processors, leaves the other settings alone and returns the same object. |
| ExtractTasks.ExtractTask.SetCompiler | src/cli/tasks/extract.task.ts:108-111 | Sets the compiler, leaves the other settings alone and returns the same object. |
| ExtractTasks.ExtractTask.Extract | src/cli/tasks/extract.task.ts:116-148 | Each file's results are exactly what the loaded cache store holds under the file's key when it holds one, and otherwise what the parsers produce for the file; they are merged in order. With no cache, the result is the merge of the parsers' own results. |
| ExtractTasks.ExtractTask.Fetch | src/cli/tasks/extract.task.ts:123-133 | One `cache.get` call returns the loaded store's entry under the file's key when the store holds one, otherwise the parsers' results for the file; a file cache has its store loaded afterwards, and a store loaded earlier stays the same. |
| ExtractTasks.ExtractTask.CombineAll | src/cli/tasks/extract.task.ts:142-147 | The `Object.assign` loop computes the merge. |
| ExtractTasks.ExtractTask.Process | src/cli/tasks/extract.task.ts:153-158 | Post-processing applies the processors from left to right, stopping at the first error. |
| ExtractTasks.ExtractTask.Apply | src/cli/tasks/extract.task.ts:155 | One processor's `process` call. |
| ExtractTasks.ExtractTask.SaveOutputs | src/cli/tasks/extract.task.ts:49-88 | The output loop leaves the disk as `SaveAll` describes and reports its error. |
| ExtractTasks.ExtractTask.SaveOutput | src/cli/tasks/extract.task.ts:50-85 | One output: on a read, parse or post-processing error nothing is written and that error is returned; otherwise exactly the output's path is set to `OutputText`. |
| ExtractTasks.ExtractTask.SaveAndPersist | src/cli/tasks/extract.task.ts:49-90 | After extraction the disk ends as `SaveAll` describes, and the result fails exactly when a save does. A cache file on another disk is written only on success and only when its text changed (`CacheDiskAfter`); after a failed save that disk is untouched. |
| ExtractTasks.ExtractTask.PersistCache | src/cli/tasks/extract.task.ts:90 | Persisting leaves the output disk alone unless the cache file lives on it. A file cache writes its cache file and removes the temporary file exactly when the text changed, and otherwise leaves its disk alone. |
| ExtractTasks.ExtractTask.Execute | src/cli/tasks/extract.task.ts:34-91 | Without a compiler it fails with `No compiler configured` and touches nothing. Otherwise the extracted collection is the merge of what was served per file: the loaded store's entry under the file's key when there is one, else the parsers' results. The outputs are written as `SaveAll` describes, it fails exactly when a save does, and a cache file on another disk ends as `CacheDiskAfter` states: written only on success and only when its text changed. |

## Left out

- `service.parser.ts` is not part of this model. It resolves class hierarchies across files on disk.
- The compilers' `parse` and `compile` (gettext and JSON formats) are parameters of a `Codec`. Only their file extensions are modelled.
- The command line (`cli.ts`): option parsing, defaults and console output.
- Glob expansion, `readFileSync` of the inputs and `statSync`. They are the parameters `files` and `isDirectory`.
- Creating the output directory and the cache directory (`mkdirSync`).
- `path.resolve` and `path.join` normalisation: output paths are joined with `/`.
- `Intl.Collator`: a parameter that maps each sensitivity to a comparator.
- The angular template parser and the TypeScript parser: parameters returning the modelled AST.
- Angular's whitespace collapsing in templates.
- A `LiteralPrimitive` holds the string form of its value; other value kinds are not distinguished.
- JavaScript objects list integer-like keys first, whatever their insertion order. The model keeps insertion order for every key.
- Collections.Add: `add` in the source shares the entry object with the receiver, so the receiver's `sourceFiles` array is mutated too. The model is value-based and does not capture that aliasing.
- FsHelpers.NormalizeFilePath: `replace` with a string pattern treats `$` sequences in the replacement specially; the model assumes the base name holds none.
- FsHelpers.Basename: models POSIX `basename` with one separator; Windows drive letters are not modelled.
- JsString.ToLowerCase: maps only the ASCII capitals. JavaScript also lower-cases other letters, some of them into longer strings (`İ` becomes `i̇`).
- Collections.StrippedKey: inherits the ASCII-only lower-casing, so `stripKeyPrefix('É')` leaves the key `éa` unchanged, while JavaScript strips it to `a`.
- Collections.Get: a key named like an `Object.prototype` member (`toString`, `constructor`) is absent in the model; `values[key]` in JavaScript finds the inherited member. NullAsDefaultValue.Process inherits this through `get`.
- Collections.Add: for a key named like an `Object.prototype` member (`toString`), `this.values[key]` finds the inherited function, its copy has no `sourceFiles`, and the source throws; the model adds the key like any other.
- Collections.Filter: `values[key] = val` with the key `__proto__` sets the new object's prototype instead of adding a key; the model keeps the key like any other.
- Collections.Map: `values[key] = …` with the key `__proto__` sets the new object's prototype instead of adding a key; the model keeps the key like any other.
- FunctionParser.Extract: compares the callee's name itself with the configured name. TypeScript's `escapedText` adds an `_` in front of a name starting with `__`, so with a configured name such as `__x` the source finds no call while the model does.
- SortByOriginalOrder.Lookup: sees only a group's own children. `path[keyPart]` on a plain object also finds members inherited from `Object.prototype` (`constructor`, `toString`), so for such a part the source sees a present (non-null) value where the model sees none.
- SortByOriginalOrder.InsertExisting: an existing key with the part `__proto__` is added to the matrix; in the source `path['__proto__'] = …` sets the object's prototype, so that key is never listed.
- SortByOriginalOrder.InsertExtracted: an extracted key `constructor` or `toString` missing from the existing keys is added; the source's `path[keyPart] == null` test finds the inherited member and skips it, and for `toString.x` walks into the inherited function. A `__proto__` part is added too, where the source sets the prototype.
- SortByOriginalOrder.FlattenAsWritten: takes the first UTF-16 code unit of a name. JavaScript's array destructuring of a string takes the first code point, so the two differ on names starting with a character outside the Basic Multilingual Plane.
- Caches.FileCache.Get: `key in this.cached` also sees names inherited from `Object.prototype`; the model does not.
- Caches.LoadCache: a cache file holding JSON that is neither an object nor `null` is treated as unparsable.
- Caches.NullCache.Get: does not count generator calls.
- SHA-256 (`getHash`) and the tool's own `package.json` are parameters of the file cache.
- ExtractTasks.ExtractTask.Extract: the nested loops over patterns and files are one loop over `SourceFiles(inputs, files)`.
- ExtractTasks.ExtractTask.SaveAndPersist: its postcondition is stated only when the cache file is on a different disk than the outputs, or there is no cache; a cache file among the outputs' own files is not described.
- ExtractTasks.ExtractTask.Execute: its postcondition on the output files is stated only when the cache file is on a different disk than the outputs, or there is no cache.
- ExtractTasks.ExtractTask.Extract: the count of input files served from the cache (`skipped`) and its console message are not modelled.
- ExtractTasks.ExtractTask.Execute: the console messages are not modelled.
- CompilerFactory.CreateFormat: the round trip holds by evaluation alone.
- The tests expect sorting by the original order with no existing or extracted keys to keep the draft's keys sorted. The source replaces the draft with the flattened matrix, which is then empty. The model follows the source.
- The tests expect the directive parser to find elements inside `@if`, `@for` and other control-flow blocks. The source only searches the children of element-like nodes. The model follows the source.

## Findings

| source | as written | input that shows it | evidently intended | confidence | as-written member | corrected member |
|---|---|---|---|---|---|---|
| src/post-processors/sort-by-original-order.post-processor.ts:107 | The `forEach` callback destructures each property name as `([keyPart])`, so `keyPart` is only its first character. The lookup `keysMatrix[keyPart]` then misses, and the recursion calls `Object.keys(undefined)`, which throws a `TypeError`. | existing translations with the key `ab`, nothing extracted | Each property name is used whole, so the keys come out as `["ab"]`. | not executed | SortByOriginalOrder.FirstCharacterCounterexample | SortByOriginalOrder.ProcessFlatKeys |
