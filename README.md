# Configurafox document transformation core, in Dafny

Configurafox is a static site generator. Its core rewrites parsed HTML
documents with a list of transformers and answers questions about the site's
registered resources. This project models that core and proves properties
of the model:

- **the resource registry** (`ResourceManager`). It holds a project root and
  a map from a path relative to that root to a resource. It is filled by
  walking a directory and asking a classifier about each file. It is then
  queried by identifier.
- **the walker** (`walk`). It makes one recursive pass over a document tree
  against an ordered list of transformers. Each sibling level is rebuilt
  first: every element is replaced by the output of the first transformer
  that matches it, or kept. Then the children of every element of the
  rebuilt level are walked.
- **the four transformers**:
  - variable substitution (`$name`);
  - link resolution through the registry (`@identifier`);
  - KaTeX rendering, for tag dispatch and body shape;
  - syntax highlighting, for its checks, background style and re-tagging.
- **the string helpers** `get_attr` and `deindent`.

Files:

- `wrappers.dfy`: `Option` and `Result`.
- `paths.dfy`: Unix `PathBuf` behaviour on raw strings. This covers `push`,
  `parent`, and comparison with `.`, which Rust makes component by component.
- `strings.dfy`: the standard-library string operations `deindent` uses, and
  `deindent` itself.
- `dom.dfy`: the node tree, the error type, and `get_attr`.
- `resource_manager.dfy`: the registry as a class. Its fields are the root
  and the registered map. Registration is an imperative loop proved against
  the function `Register`.
- `transformers.dfy`: the transformers' `matches` predicates and `replace`
  rewrites.
- `treewalker.dfy`: the closed transformer type, the dispatch, and the
  specification `WalkSpec`. It also holds the imperative `Walk` proved
  against `WalkSpec`, and the properties of the walk.

Where the model departs from the code or from its description:

- `deindent` removes every leading newline (`trim_start_matches`), not just
  one.
- The highlighter keeps only the first node parsed from the generated HTML
  and ignores the rest.
- At src/treewalker.rs:135 the link loop binds the map's key (a path) under
  the name `resource` and calls `identifier()` and `output_path()` on it. A
  path has neither method. The model uses the entry's resource, the value,
  which is evidently what was meant.

The walk terminates because the model assumes one thing of the external
highlighter and HTML parser (`EngineContract`). Markup the highlighter
generates, once parsed, contains no `code-hl` or `pre-hl` element. Source
documents are not constrained and may contain such elements. Under that
assumption, walking a child level lowers either the number of highlighter
elements or the number of nodes. Without it, the highlighter could be
applied to its own output forever.

## Model

| member | source | states |
|---|---|---|
| Paths.Push | src/resource_manager.rs:41-45 | definition of Unix `PathBuf::push`; properties in `PushAbsolute`, `PushRelative`, `PushAssociative` |
| Paths.Parent | src/treewalker.rs:127 | definition of `Path::parent`; properties in `ParentOfPush`, `ParentExamples`, `ParentOfFileExamples` |
| Paths.IsCurDir | src/resource_manager.rs:68 | definition of component-wise comparison with `.`; properties in `CurDirExamples` |
| Paths.PushAbsolute | src/resource_manager.rs:41-45 | pushing an absolute fragment yields the fragment: it replaces the root |
| Paths.PushRelative | src/resource_manager.rs:41-45 | pushing a relative fragment keeps the base as prefix and the fragment as suffix; one `/` is inserted between them exactly when the base is non-empty and does not end in `/` |
| Paths.PushAssociative | src/resource_manager.rs:63-72 | pushing a directory and then a name equals pushing the joined relative path in one step |
| Paths.ParentOfPush | src/treewalker.rs:127 | the parent of a trimmed directory with a file name pushed onto it is that directory |
| Paths.CurDirExamples | src/resource_manager.rs:68 | `.`, `./` and `./.` compare equal to `.`; the empty path, `..`, `./a` and `/` do not |
| Paths.ParentExamples | src/treewalker.rs:127 | the empty path and `/` have no parent; the parent of `.` is the empty path |
| Paths.ParentOfFileExamples | src/treewalker.rs:127 | the parent of `index.html` is the empty path; the parent of `blog/post.html` is `blog` |
| Strings.TrimStartNewlines | src/treewalker.rs:213 | the result is a suffix of the input; every removed character is a newline and the result does not start with one |
| Strings.TrimEnd | src/treewalker.rs:213 | the result is a prefix of the input; every removed character is white space and the last kept one, if any, is not |
| Strings.LeadingSpaces | src/treewalker.rs:214 | the count is the length of the run of spaces that opens the text |
| Strings.Spaces | src/treewalker.rs:215 | the prefix has exactly the counted length and holds only spaces |
| Strings.Lines | src/treewalker.rs:218 | no line contains a newline; there are no lines exactly when the text is empty |
| Strings.LinesIsSplit | src/treewalker.rs:218 | for a non-empty text without carriage returns or a trailing newline, the lines are exactly the pieces between newlines |
| Strings.MapStripPrefix | src/treewalker.rs:219 | one output line per input line: the prefix is stripped when present, otherwise the line is unchanged |
| Strings.SplitJoin | src/treewalker.rs:221 | lines joined with newlines split back into the same lines when none contains a newline |
| Strings.FirstLineIndented | src/treewalker.rs:214 | the indentation is measured on the first line, which always carries all of it |
| Strings.Deindent | src/treewalker.rs:212-222 | definition of `deindent`; properties in `DeindentLines`, `DeindentFirstCharNotSpace`, `DeindentExample` |
| Strings.DeindentLines | src/treewalker.rs:212-222 | an empty trimmed input gives ""; otherwise the output has one line per trimmed-input line, each with the first line's space run removed when it starts with it and unchanged otherwise |
| Strings.DeindentFirstCharNotSpace | src/treewalker.rs:212-222 | the output never starts with a space |
| Strings.DeindentExample | src/treewalker.rs:212-222 | `"\n    line1\n    line2\n"` becomes `"line1\nline2"` |
| Dom.GetAttr | src/treewalker.rs:13-17 | the result is the value of the first pair with the key; it is none exactly when no pair has the key |
| Dom.GetAttrIgnoresLaterPairs | src/treewalker.rs:13-17 | pairs added after a present key do not change the result |
| ResourceManagement.FirstWithIdentifier | src/resource_manager.rs:96-101 | the result is the first listed resource with the identifier; it is none exactly when no listed resource has it |
| ResourceManagement.FirstWithIdentifierInMap | src/resource_manager.rs:96-101 | over any iteration order of a map, a found resource is registered and has the identifier, and none is found exactly when no registered resource has it |
| ResourceManagement.LookupIndependentOfOrder | src/resource_manager.rs:96-101 | with unique identifiers, every iteration order finds the same resource |
| ResourceManagement.EntryPath | src/resource_manager.rs:67-75 | definition of the entry path; properties in `EntryPathParent`, `ClassifiedPathIsAbsoluteEntryPath` |
| ResourceManagement.Register | src/resource_manager.rs:57-94 | definition of one registration call as a function of the old map; properties in `RegisterOnlyInsertsReachedFiles`, `RegisterCoversReachedFiles`, `RegisterGrows`, `RegisterStopsAtFirstFailure` |
| ResourceManagement.RegisterEntry | src/resource_manager.rs:64-90 | definition of one loop iteration; the method `RegisterOneEntry` is proved against it |
| ResourceManagement.EntryPathParent | src/resource_manager.rs:67-75 | the entry path's parent is the listed directory, or the empty path for entries of `.` |
| ResourceManagement.ClassifiedPathIsAbsoluteEntryPath | src/resource_manager.rs:63-83 | outside `.`, the path given to the classifier is the root pushed with the entry path |
| ResourceManagement.RegisterOnlyInsertsReachedFiles | src/resource_manager.rs:78-89 | each key registration adds or changes is the entry path of a file the walk reaches, mapped to what the classifier returned for it; directories are never keys, and subdirectories are entered only when `recurse` is set; all other keys are left alone |
| ResourceManagement.RegisterCoversReachedFiles | src/resource_manager.rs:78-89 | after a successful registration, every reached file the classifier accepts is registered under its entry path |
| ResourceManagement.RegisterGrows | src/resource_manager.rs:57-94 | registration never removes a key |
| ResourceManagement.RegisterStopsAtFirstFailure | src/resource_manager.rs:63-80 | after the first unreadable entry, failed file type or failed subdirectory, no later entry changes the outcome or the map |
| ResourceManagement.ResourceManager.constructor | src/resource_manager.rs:33-39 | the given root, and nothing registered |
| ResourceManagement.ResourceManager.AbsolutePath | src/resource_manager.rs:41-45 | an absolute fragment is returned as is; otherwise the root is a prefix and the fragment a suffix, with one `/` between them exactly when the root is non-empty and does not end in `/` |
| ResourceManagement.ResourceManager.RegisterAllFilesInDirectory | src/resource_manager.rs:47-55 | the outcome and the new map are `Register` applied to the old map; the root is unchanged |
| ResourceManagement.ResourceManager.RegisterAllFilesInDirectoryRef | src/resource_manager.rs:57-94 | the loop over the entries yields `Register` of the old map. A listing that cannot be read is an error with the map unchanged |
| ResourceManagement.ResourceManager.RegisterOneEntry | src/resource_manager.rs:64-90 | one loop iteration yields `RegisterEntry`. A classifier `None` leaves the map as it was. `Some(r)` stores `r` at the entry path, replacing any earlier value under the same string |
| ResourceManagement.ResourceManager.Iterate | src/resource_manager.rs:97-98 | the iteration lists every registered entry exactly once |
| ResourceManagement.ResourceManager.ResourceByIdentifier | src/resource_manager.rs:96-101 | a returned resource is registered and has the identifier; none is returned exactly when no registered resource has it |
| ResourceManagement.ResourceManager.AllRegisteredFiles | src/resource_manager.rs:103-105 | the result has the registered map's keys and values; it is a value, so later registration cannot change it |
| Transformers.VariableMatches | src/treewalker.rs:86-88 | definition of `VariableReplacer::matches`: a `$` tag or some `$` value; used by `FirstMatch` |
| Transformers.ReplaceVar | src/treewalker.rs:91-99 | definition of `replace_var`; its cases are stated by `VariableReplace` |
| Transformers.LinkMatches | src/treewalker.rs:122-124 | definition of `LinkReplacer::matches`: some `@` value |
| Transformers.LinkTarget | src/treewalker.rs:137-143 | definition of the link target; its two cases are stated by `LinkReplace` |
| Transformers.ResolveLink | src/treewalker.rs:129-152 | definition of `replace_link`; its cases are stated by `LinkReplace` |
| Transformers.KatexMatches | src/treewalker.rs:171-173 | definition of `KatexReplacer::matches`: the tags `$`, `katex`, `katex-prelude` |
| Transformers.SyntaxMatches | src/treewalker.rs:245-247 | definition of `SyntaxHighlighter::matches`: the tags `code-hl`, `pre-hl` |
| Transformers.SyntaxHighlight | src/treewalker.rs:249-307 | definition of `SyntaxHighlighter::replace`; properties in `SyntaxHighlightCheckOrder`, `SyntaxHighlightEngineErrors`, `SyntaxHighlightSuccess` |
| Transformers.MapValues | src/treewalker.rs:104-107 | keys and order are kept and each value is rewritten; it fails exactly when some value's rewrite fails, with the first such error |
| Transformers.VariableReplace | src/treewalker.rs:90-111 | a `$`-tag becomes one text node holding the variable's value, dropping the children. Any other element keeps its tag, children and keys; only `$` values are substituted. An unknown name fails with "Unknown variable" and the name; for attributes, the first unknown `$` value in attribute order is the one reported |
| Transformers.LinkReplace | src/treewalker.rs:126-160 | one element with the same tag, children and keys. Non-`@` values are unchanged. Each `@` value becomes the link target of a listed resource with that identifier: the output path itself when the source path has no parent, otherwise the path relative to the source directory. An identifier no listed resource has fails with "Unknown identifier: " and the value, the first such `@` value in attribute order being the one reported |
| Transformers.LinkReplaceIndependentOfOrder | src/treewalker.rs:135-149 | with unique identifiers, the rewrite is the same for every iteration order of the registry |
| Transformers.KatexReplace | src/treewalker.rs:175-209 | `katex-prelude` gives exactly one childless `link` with `rel=stylesheet` and the CDN `href` for the version. `katex` and `$` succeed exactly when the body is one text node, giving one raw-HTML node rendered in display mode only for `katex`; otherwise they fail with "Katex: malformed body" |
| Transformers.Hex2 | src/treewalker.rs:260 | two characters, each a lower-case hex digit, that read back as the byte |
| Transformers.BackgroundStyle | src/treewalker.rs:260 | `background: #` followed by six lower-case hex digits reading back as the red, green and blue components, then `;` |
| Transformers.BackgroundStyleExample | src/treewalker.rs:260 | colour (0x2b, 0x30, 0x3b) gives `background: #2b303b;` |
| Transformers.WithBackground | src/treewalker.rs:282-284 | without a background the attributes are unchanged; with one, a `style` pair is appended last |
| Transformers.SyntaxHighlightCheckOrder | src/treewalker.rs:250-265 | the checks fail in order, each with its own message: a body that is not one text node, a missing `lang` (first occurrence), an unknown theme, an unknown language |
| Transformers.SyntaxHighlightEngineErrors | src/treewalker.rs:254-279 | once the checks pass, the highlighter gets the deindented code. Its error comes back as a syntect error. A parse error comes back with the path `<generated-syntect>`. A first parsed node that is not a `pre` element is an "Invalid html generated by syntect" error |
| Transformers.SyntaxHighlightSuccess | src/treewalker.rs:282-304 | success yields exactly one element, `pre` for `pre-hl` and `code` for `code-hl`. It carries the generated `pre`'s children and attributes, plus the background style appended last when the theme has one |
| TreeWalker.Matches | src/treewalker.rs:57-63 | dispatch of `matches` to the four transformers; used by `FirstMatch` |
| TreeWalker.Replace | src/treewalker.rs:57-63 | dispatch of `replace` to the four transformers; used by `ReplaceNode` |
| TreeWalker.ReplaceNode | src/treewalker.rs:52-65 | definition of what one drained node becomes; the method `ReplaceFirstMatching` is proved against it, properties in `ReplaceNodeUsesFirstMatch` |
| TreeWalker.RebuildLevel | src/treewalker.rs:49-66 | definition of the first phase; the method `RebuildInOrder` is proved against it, properties in `FlatMapConcat`, `RebuildSplicesInPlace`, `RebuildKeepsUnmatched` |
| TreeWalker.WalkSpec | src/treewalker.rs:48-75 | definition of `walk`; the method `Walk` is proved against it, properties in `WalkShape`, `WalkPropagatesErrors`, `WalkIdentity` |
| TreeWalker.WalkLevel | src/treewalker.rs:68-72 | definition of the second phase; properties in `WalkLevelResult`, `WalkLevelStopsAtFirstError` |
| TreeWalker.FirstMatch | src/treewalker.rs:57-63 | the index of the first transformer in list order that matches; none exactly when no transformer matches |
| TreeWalker.ReplaceFirstMatching | src/treewalker.rs:52-65 | trying the transformers in order gives `ReplaceNode`. Non-elements and unmatched elements are kept; a matched element is replaced by the first matching transformer's output |
| TreeWalker.RebuildInOrder | src/treewalker.rs:49-66 | draining and rebuilding the level in order gives `RebuildLevel`: the first error, or the replacements joined in order |
| TreeWalker.Walk | src/treewalker.rs:48-75 | the result is `WalkSpec`: the rebuilt level, with the children of each of its elements walked, or the first error |
| TreeWalker.FlatMapConcat | src/treewalker.rs:51-66 | rebuilding a concatenation rebuilds each part in turn; the left part's error comes first, and outputs are joined in order |
| TreeWalker.FlatMapStopsAtFirstError | src/treewalker.rs:59 | after a replacement fails, no later node changes the result |
| TreeWalker.WalkLevelStopsAtFirstError | src/treewalker.rs:68-72 | after the children of an element fail to walk, no later element changes the result |
| TreeWalker.ReplaceNodeBelow | src/treewalker.rs:57-65 | the children of every element a replacement produces have fewer highlighter elements than the replaced node, or as many and fewer nodes |
| TreeWalker.HighlightedChildrenPlain | src/treewalker.rs:273-304 | a highlighted element's children contain no highlighter element |
| TreeWalker.RebuildBelow | src/treewalker.rs:68-72 | every element of the rebuilt level, new ones included, has children strictly smaller than the level, so the walk terminates |
| TreeWalkerProperties.ReplaceNodeUsesFirstMatch | src/treewalker.rs:57-63 | an element is replaced by the first transformer in list order that matches it; later ones are not consulted |
| TreeWalkerProperties.RebuildSplicesInPlace | src/treewalker.rs:59-61 | a node's replacement is spliced in where the node was, between the rebuilt prefix and the rebuilt suffix, and is not rebuilt again |
| TreeWalkerProperties.RebuildKeepsUnmatched | src/treewalker.rs:52-65 | a level of non-elements and unmatched elements is rebuilt unchanged, in the same order |
| TreeWalkerProperties.WalkLevelResult | src/treewalker.rs:68-72 | the second phase succeeds exactly when every element's children walk successfully. Elements keep name and attributes and get walked children; other nodes are kept. An error is the first failing element's |
| TreeWalkerProperties.WalkShape | src/treewalker.rs:48-75 | the walk succeeds exactly when the level is rebuilt and the children of every element of the rebuilt level, new ones included, are walked. The result has one node per rebuilt node, with elements getting their walked children |
| TreeWalkerProperties.WalkPropagatesErrors | src/treewalker.rs:48-75 | a replacement error on the level is the walk's error. A failed walk of a rebuilt level is the error of the first element whose children fail, at any depth |
| TreeWalkerProperties.WalkIdentity | src/treewalker.rs:48-75 | a forest where no transformer matches anything is walked to itself |
| TreeWalkerProperties.WalkLevelIdentity | src/treewalker.rs:68-72 | the second phase leaves such a level as it is |
| TreeWalkerProperties.NotRetestedExample | src/treewalker.rs:59-61 | `$x` with `x = "$y"` becomes `$y` and is not substituted again, although the new element still matches |
| TreeWalkerProperties.VariableShadowsKatex | src/treewalker.rs:57-63 | with variables listed before KaTeX, a `$` element is a variable lookup and is never rendered |

## Left out

- The file system. `read_dir`, `DirEntry::file_type` and `DirEntry::path` are replaced by a `Listing` value given to registration, in which each directory entry carries its own listing. Symbolic links count as non-directories, as `file_type` reports them.
- Path behaviour on other platforms. Paths are Unix byte strings held as `seq<char>`, and the `to_str` UTF-8 check at src/treewalker.rs:147 is not modelled.
- ResourceManagement.RegisterEntry: registry keys are compared as strings, while the source's `PathBuf` keys compare component by component (`a/./x`, `a//x` and `a/x` are one key there). The two agree when every directory given to registration is written in normal form (no `.` component past the first, no doubled `/`). For other spellings the model can keep two keys where the source keeps one.
- ResourceManagement.ResourceManager.RegisterOneEntry: the same string comparison of keys. An insert replaces an earlier value only under an identical string, not under any component-equal path.
- Map iteration order. Rust's `HashMap` leaves it unspecified. The model takes the order as a parameter: any enumeration that lists every entry once.
- Transformers.LinkReplace: the registry is read through `Context.files`, one enumeration of the registered map used for every lookup in a walk. It is not a fresh `all_registered_files` copy on each lookup. The result does not depend on the order when identifiers are unique (`LinkReplaceIndependentOfOrder`).
- ResourceManagement.ResourceManager.ResourceByIdentifier: the result is a copy of the resource, not a reference into the map.
- ResourceManagement.ResourceManager.AllRegisteredFiles: the copy is a Dafny map value, equal to the field. No separate clone exists to modify.
- External engines. These are the KaTeX renderer and its version string, syntect's highlighter, the HTML parser, `pathdiff::diff_paths`, and the `{:?}` quoting of generated HTML. They are fields of `Engines` and nothing is assumed of them, except the assumption above about parsed highlighter output (`EngineContract`).
- The syntax and theme sets' contents, and `SyntaxHighlighter::default`, which loads them. They are plain maps given to the transformer.
- Panics. These are `expect` on a failed relativisation, on non-UTF-8 paths, and on a failed KaTeX render (src/treewalker.rs:140, 147, 199). `diffPaths` and `renderKatex` are total, and the panics are not modelled.
- Transformers.KatexReplace: the `unreachable!` for a tag the transformer does not match becomes a precondition. The walk only calls `replace` after `matches`.
- Transformers.SyntaxHighlight: the same for its `unreachable!` at src/treewalker.rs:305.
- TreeWalker.Walk: the source rewrites the tree in place, and after an error the tree is left partly rewritten. The model returns a new forest or the error, so the partial state after an error is not captured.
- Foreign error payloads. The HTML parse error, the syntect error and I/O errors are kept as message strings.
- `describe`, `tracing` logging, and the `resource` and `data` fields of `Context`. No transformer reads them. The transformers read only the source path and the registered files, which the model's `Context` holds.
- src/lib.rs is not part of this model. It holds file I/O, the processors that read, parse and serialise files, and `run`.
