# gatsby-plugin-templated-files in Dafny

This project models the core of gatsby-plugin-templated-files, a Gatsby plugin. The plugin watches a directory of files, gives each file a page node and a URL derived from the file's path, and keeps a parent/child tree of those nodes in step with file `add` and `unlink` events. The modules follow the source files:

- `Strings` (strings.dfy): the JavaScript string operations the plugin relies on, with their JavaScript edge cases:
  - `split` on a character class;
  - `join`;
  - `indexOf`;
  - `replace` with a string pattern, which replaces the first occurrence only. The replacement is copied literally; the only replacement the plugin passes is a slug, which holds no `$` (`PageTree.NodeForShape`).
- `Constants` (constants.dfy): the node type, default URL template, default globs and reporting prefix of src/constants.js.
- `Helpers` (helpers.dfy): src/helpers.js.
  - `globify` and `slashify`.
  - `slugify`, as its chain of six rewrites.
  - `objMap`, as a loop that fills a map.
- `Records` (records.dfy): the path-info record.
  - As a value (`PathInfo`).
  - As a mutable object (`InfoRecord`), which `indexify` rewrites in place.
- `Paths` (paths.dfy): `pathinfo` of src/pathinfo.js.
  - A specification function, `PathInfoOf`.
  - A method, `Parse`, that follows the source's steps: pop the base off the segments, split the base at its dots, pop the extension, and push the name back.
- `Indexing` (indexing.dfy): `indexify` of src/indexify.js and its copy in src/helpers.js. Both are methods that rewrite an `InfoRecord` in place, and both are proved to leave the record in the state `Indexified` describes.
- `Validation` (validation.dfy): the option defaults and checks at the top of src/createPagesStatefully.js, and the leading-slash normalisation of the URL template.
- `PageTree` (pagetree.dfy): the `add` and `unlink` handlers of src/createPagesStatefully.js, as a class `Synchronizer`.
  - Its state is the node store, in insertion order, and a log of every action the handlers send to Gatsby or its reporter.
  - The library calls are fields of an `Env` value: `path.relative`, `anymatch`, `createNodeId`, `mime.getType` and `prettyBytes`.
  - `StoreOk` is the store invariant. Every node carries the record and URL of its file, URLs are distinct, and every node's `children` are exactly the ids of the nodes it is the parent of.
  - `add` and `unlink` preserve that invariant. An `add` followed by an `unlink` of the same file restores the store.

Two properties of the code are worth stating on their own:
- `slugify` collapses only the first run of two or more hyphens, because its last regular expression has no `g` flag. So it is not idempotent (`Helpers.SlugifyNotIdempotent`).
- The URL template supports one placeholder, `:slug`, replaced at its first occurrence. Other placeholder syntaxes in include globs or templates (`{a}`, `:a`, `{{a}}`, `${a}`) are left as written.

## Model

| member | source | states |
|---|---|---|
| Strings.Split | src/pathinfo.js:32 | a split always has at least one part; the empty string splits into one empty part, as in JavaScript |
| Strings.IndexOf | src/createPagesStatefully.js:143 | `indexOf` returns -1 or the first position where the pattern occurs |
| Strings.IndexOfZero | src/createPagesStatefully.js:143 | `indexOf(pat) === 0` holds exactly when `pat` is a prefix |
| Strings.SplitPartsFree | src/pathinfo.js:32 | no part of a split holds a separator |
| Strings.SplitSingleton | src/pathinfo.js:32 | a string splits into itself alone exactly when it holds no separator |
| Strings.JoinSplit | src/pathinfo.js:44-46 | joining the parts of a split with the same separator gives the string back |
| Strings.SplitJoin | src/pathinfo.js:44-46 | splitting a join of separator-free parts gives the parts back |
| Strings.SplitEmptyPart | src/pathinfo.js:35-36 | a split has an empty part exactly when the string is empty or has a leading, trailing or doubled separator |
| Helpers.Globify | src/helpers.js:6-8 | a pattern with a slash is unchanged; otherwise `**/` is prefixed; the result always holds a slash and ends with the input |
| Helpers.GlobifyIdempotent | src/helpers.js:6-8 | globify applied twice equals globify applied once |
| Helpers.Slashify | src/helpers.js:14-16 | the result starts with a slash, ends with the input, is at most one character longer, and equals the input when that already starts with a slash |
| Helpers.SlashifyIdempotent | src/helpers.js:14-16 | slashify applied twice equals slashify applied once |
| Helpers.HyphenateRunsRemovesRunChars | src/helpers.js:25 | after step 2 no whitespace, dot or underscore is left |
| Helpers.StripDisallowedKeeps | src/helpers.js:26 | after step 3 only `[a-z0-9_-]` is left, and only characters of the input |
| Helpers.CollapseFirstRunAt | src/helpers.js:29 | step 6 collapses the leftmost run of two or more hyphens and leaves a later run untouched |
| Helpers.SlugifyAlphabet | src/helpers.js:22-30 | a slug contains only `a-z`, `0-9` and `-`, because step 2 turned every underscore into a hyphen before step 3 |
| Helpers.SlugifyEdges | src/helpers.js:27-28 | a non-empty slug neither starts nor ends with a hyphen |
| Helpers.SlugifyClean | src/helpers.js:22-30 | a string that is already a clean slug is its own slug |
| Helpers.SlugifyNotIdempotent | src/helpers.js:29 | `p--q--r` slugifies to `p-q--r` and only a second pass gives `p-q-r`, so slugify is not idempotent |
| Helpers.SlugifyWords | src/helpers.js:22-30 | words of ASCII letters and digits joined by single spaces slugify to the lower-case words joined by hyphens |
| Helpers.SlugifyPadded | src/helpers.js:22-30 | hyphen and space padding before, between and after two groups of such words leaves the lower-case words joined by single hyphens |
| Helpers.SlugifySpacedExample | test/helpers.test.js:18 | `slugify("This Should Be Slugged") == "this-should-be-slugged"` |
| Helpers.SlugifyPaddedExample | test/helpers.test.js:19 | `slugify("--- This Should Be --- Slugged ---") == "this-should-be-slugged"` |
| Helpers.ObjMap | src/helpers.js:59-64 | the output has exactly the input's keys, and each value is the callback applied to the input's value and key |
| Records.InfoRecord.constructor | src/pathinfo.js:53-62 | a new record object holds exactly the given record's properties |
| Paths.LastIndex | src/pathinfo.js:44-45 | the position of the last dot, with no dot after it, or -1 when there is none |
| Paths.PathSlugChars | src/pathinfo.js:50 | every slug of a record `pathinfo` returns is made of `a-z`, `0-9` and `-` |
| Paths.JoinSlugPath | src/pathinfo.js:56 | slugs joined with `/` hold only slug characters and `/`, and so no `$` |
| Paths.PathInfoOf | src/pathinfo.js:13-63 | the empty path gives the all-empty record; an empty segment gives the empty-segment error, exactly; otherwise a `.` or `..` segment gives the relative-path error, exactly; otherwise the record is well shaped: `dirs + [base]` are the segments, `depth == \|slugs\| == \|dirs\| + 1`, each slug slugifies its segment with the name in the base's place, `dir` and `slug` join with `/`, the extension has no dot, and `name + "." + extension == base` when the base has a dot (otherwise the name is the base and the extension is empty) |
| Paths.InfoOfSegments | src/pathinfo.js:43-62 | the record built from a list of valid segments is well shaped as above |
| Paths.Parse | src/pathinfo.js:13-63 | the method's step-by-step pops and pushes compute exactly `PathInfoOf(path)` |
| Paths.BaseBits | src/pathinfo.js:44-46 | splitting the base at dots and popping the last bit is splitting at the last dot; a base without a dot is one bit |
| Paths.SingleSegment | test/pathinfo.test.js:16-25 | a clean one-segment path is its own base, name and slug, with depth 1 |
| Paths.ThreeSegments | test/pathinfo.test.js:26-35 | `a/b/c` gives base `c`, dirs `[a, b]`, dir `a/b`, slug `a/b/c` and depth 3 |
| Paths.EmptySegmentExample | test/pathinfo.test.js:73-76 | `a/b//c/d` fails with the empty-segment error |
| Paths.RelativeSegmentExamples | test/pathinfo.test.js:77-82 | `a/./a` and `a/../a` fail with the relative-path error |
| Indexing.IndexifiedShape | src/indexify.js:10-18 | the extension becomes empty and the depth drops by one; the last directory becomes name and base (both empty without directories) and leaves `dirs`; the last slug is popped; `dir` and `slug` are re-joined; `depth == \|slugs\|` is kept when it held and the depth was at least 1 |
| Indexing.Indexify | src/indexify.js:10-18 | the method rewrites the given record object in place into `Indexified` of its old value and returns that same object |
| Indexing.HelpersIndexify | src/helpers.js:41-50 | the copy in helpers.js meets the same contract, so both copies agree on every record |
| Indexing.IndexifyStripsFile | src/helpers.js:32-40 | the record of `d/f` indexified is the record of `d`, when the last segment of `d` has no dot: indexify works as if the index file were stripped from the path |
| Indexing.IndexifiedSegments | src/indexify.js:11-16 | on segments, indexify drops the last one, provided the segment before it has no dot (a dotted directory name keeps its dot as name and base in `indexify`, where `pathinfo` would split an extension off it) |
| Indexing.IndexifyRootFile | src/indexify.js:11-16 | the record of a root file indexified is the record of the empty path |
| Indexing.IndexifyRootExample | test/indexify.test.js:5-27 | `index.html` at the root collapses to the all-empty depth-0 record |
| Indexing.IndexifyDeepExample | test/indexify.test.js:28-50 | `a/b/index.md` collapses to base and name `b`, dirs `[a]`, slug `a/b` and depth 2 |
| Validation.AllStrings | src/createPagesStatefully.js:38-40 | the loop over an option array accepts exactly when every element is a string |
| Validation.Validate | src/createPagesStatefully.js:18-49 | fails exactly when some check fails on the defaulted options, with a failing check such that no earlier check fails; on success `path`, `template` and `url` are strings, `include`, `ignore` and `indexes` are arrays of strings, and the URL template is the url with a leading slash ensured (line 68) |
| Validation.DefaultsPass | src/createPagesStatefully.js:23-27 | with only a non-empty path and template given, every check passes and the url is `/:slug` |
| Validation.EmptyStringsAreMissing | src/createPagesStatefully.js:32-34 | an empty path or template string fails the "is required" check, and no earlier check fails |
| Validation.IncludeMessages | src/createPagesStatefully.js:37-40 | `include: null` fails the array check (the default does not apply to `null`); `include: [123]` fails the element check and not the array check |
| Validation.MessageNamesOption | test/createPagesStatefully.test.js:40-78 | every panic message, after the prefix, names the option its check is about |
| Validation.IncludeNotArrayAsWritten | src/createPagesStatefully.js:37 | the message line 37 reports for an include that is not an array contains `options.include` nowhere (its `indexOf` is -1), names `options.path` instead, and differs from include's own text |
| PageTree.InfoForShape | src/createPagesStatefully.js:86-90 | the record of a file exists exactly when `pathinfo` of its relative path succeeds; its slug is its slugs joined by `/` and holds no `$`; its depth is the number of its slugs, which is the number of path segments, or one fewer for an index file |
| PageTree.NodeForShape | src/createPagesStatefully.js:93-115 | a file's node exists exactly when `pathinfo` succeeds; it belongs to the file and has no children; the slug replaced into its url holds no `$`; a template starting with `/` gives a url starting with `/`, and the default template gives `/` and the slug |
| PageTree.TestsAgree | src/createPagesStatefully.js:134-161 | the parent test and the child test both state the same parent relation (a depth-1 node under any depth-0 node; otherwise one level down with the parent's url and a slash as a prefix), so a link does not depend on which node came first |
| PageTree.NotSelfAdjacent | src/createPagesStatefully.js:132-162 | no node is its own parent, so the link loop never links the new node with itself |
| PageTree.FirstWithUrl | src/createPagesStatefully.js:118-120 | the first stored node with a url: it has the url and no node before it does |
| PageTree.IndexOfFile | src/createPagesStatefully.js:187-188 | the first stored node of a file, or -1 when no node has that file |
| PageTree.IdsDistinct | src/createPagesStatefully.js:95 | in a good store, distinct nodes have distinct ids and distinct files |
| PageTree.Linked | src/createPagesStatefully.js:132-162 | linking the new node keeps every node's fields other than its children list |
| PageTree.Remove | src/createPagesStatefully.js:201 | the filtered children list holds exactly the ids of the old list other than the removed one |
| PageTree.Detach | src/createPagesStatefully.js:196-204 | detaching an id keeps every node's fields other than its children list |
| PageTree.Cleared | src/createPagesStatefully.js:191 | clearing the node's children changes nothing else and leaves that node with no children |
| PageTree.Synchronizer.constructor | test/createPagesStatefully.test.js:6-8 | the plugin starts with an empty store and an empty log, which is a good store |
| PageTree.Synchronizer.MakeNode | src/createPagesStatefully.js:82-115 | building the node step by step (`pathinfo`, then `indexify` in place for an index file) computes exactly `NodeFor` |
| PageTree.Synchronizer.FindDuplicate | src/createPagesStatefully.js:117-120 | the loop finds -1 exactly when no stored node has the url; otherwise it finds the first stored node that does |
| PageTree.Synchronizer.Insert | src/createPagesStatefully.js:126-173 | the store gains the node and its links; the log gains createNode, then the links, then createPage and createPageDependency |
| PageTree.Synchronizer.LinkIn | src/createPagesStatefully.js:130-162 | the link loop leaves the store `Linked` and logs one createParentChildLink per link, in store order, the parent link before the child link |
| PageTree.Synchronizer.Add | src/createPagesStatefully.js:76-179 | keeps the store good; a path `pathinfo` rejects changes nothing; a taken url logs exactly one warning naming the first owner's and the new root path and changes nothing else; otherwise the store is the old store plus the new node, linked, and the log gains createNode, the links, createPage and createPageDependency, in that order |
| PageTree.Synchronizer.DetachAll | src/createPagesStatefully.js:196-204 | the id leaves every children list, and one touchNode is logged per node changed, in store order |
| PageTree.Synchronizer.DropNode | src/createPagesStatefully.js:189-213 | the node's children are cleared and it is detached and deleted; the log gains the touches, then deleteNode, then deletePage |
| PageTree.Synchronizer.Unlink | src/createPagesStatefully.js:180-220 | keeps the store good and leaves the store and log that `Unlinked` and `UnlinkLog` describe |
| PageTree.Synchronizer.Sweep | src/createPagesStatefully.js:186-214 | the loop over the live store drops the first node of the file and runs on over what is left |
| PageTree.LinkedKeepsStore | src/createPagesStatefully.js:127-162 | adding a node with a free url keeps the store good: urls stay distinct and every children list is again exactly the node's children in the tree |
| PageTree.UnlinkedKeepsStore | src/createPagesStatefully.js:187-213 | unlinking keeps the store good |
| PageTree.AddThenUnlink | src/createPagesStatefully.js:76-220 | adding a file whose url is free and then unlinking it gives back the store it started from |
| PageTree.FreshNode | src/createPagesStatefully.js:117-124 | a node whose url is free belongs to no stored file, has a new id, and is nobody's child |
| PageTree.UnlinkRemovesNode | src/createPagesStatefully.js:187-213 | after unlinking a file no node of that file is left and no children list names its node; without such a node the store is unchanged |
| PageTree.UnlinkKeepsOthers | src/createPagesStatefully.js:187-213 | a node of another file survives an unlink with everything but its children unchanged |
| PageTree.UrlShape | src/createPagesStatefully.js:68-101 | with the default template a node's url is a slash and its slug; with any template that starts with a slash, so does the url |
| PageTree.UnlinkAsWrittenKeepsNode | src/createPagesStatefully.js:198 | with line 198 as written, unlinking a stored file throws and leaves its node in the store with no children, whereas the intended unlink removes it |

## Left out

- File watching, globbing and the filesystem are not modelled. This covers chokidar with its include and ignore globs (src/createPagesStatefully.js:71-75), `path.resolve`, the existence and directory/file checks (lines 51-65), and `md5file`. They are I/O; each `add` receives the file's stats and digest as parameters.
- `path.relative`, `anymatch`, `createNodeId`, `mime.getType` and `prettyBytes` are functions in `Env` whose results are opaque. Two assumptions are made about them: distinct files have distinct root paths, and `createNodeId` is injective.
- The dates' `toString()` is not modelled: the stats carry the dates as strings.
- `reporter.panic`, the catch-and-rethrow of both handlers, and the debug `reporter.log` calls are not modelled.
  - A failed validation is an `Err` result.
  - A failed `pathinfo` in `add` is the outcome `Failed`, which changes nothing.
- The `pathinfo` TypeError for a value that is not a string is not modelled: the argument is a string by its type.
- Placeholder patterns and the "must include all placeholders" check are not modelled. They appear in the test file only; the source substitutes `:slug` and nothing else.
- The test file expects a TypeError, and the rejection of `""` and `"a/b"` entries in the glob options. The source does neither.
- The other source files are not part of this model: src/setFieldsOnGraphQLNodeType.js, src/loadNodeContent.js, src/blork.js, demo/ and e2e/.
- Strings.ReplaceFirst: the replacement is copied literally. JavaScript's replacement patterns (`$&`, `` $` ``, `$'`, `$$`) are not expanded. The only replacement the plugin passes is a slug, and `PageTree.NodeForShape` proves a slug holds no `$`, so no such pattern can occur.
- Helpers.Lower: `toLowerCase` is modelled on ASCII letters only. Unicode case mapping is not modelled.
- Helpers.IsSpace: `\s` is the fixed list of JavaScript space code points. Strings are sequences of Unicode scalar values here, not of UTF-16 code units.
- Validation.JsValue: numbers are integers, and every object other than an array is one value, `Object`. The checks only ask whether a value is falsy, a string or an array.
- PageTree.Synchronizer: the store holds only this plugin's nodes, as the test file's mock `createNode` does.
  - Every `internal.type === TYPE` test is therefore true.
  - Line 119 tests the new node's type instead of the stored node's. This makes no difference here.
- PageTree.Without: `deleteNode` is modelled as removing the entry with the node's id. Gatsby's own reducers, including its cascade over children, are not modelled; the handler clears the children list first to avoid that cascade.
- PageTree.Synchronizer.Unlink: follows line 198 as its comments and line 201 intend, not as written (see Findings).
- PageTree.Action: the message texts of the warning and of the debug logs are not modelled. A warning carries the two root paths it names.

## Findings

| source | as written | input that shows it | evidently intended | confidence | as-written member | corrected member |
|---|---|---|---|---|---|---|
| src/createPagesStatefully.js:198 | `n.includes(node.id)` is called on a node object, which has no `includes` method | unlink a file that has a node in the store. At the first plugin node the inner loop visits, the call throws a TypeError. The node is left in the store with its children cleared, and nothing is touched or deleted | `n.children.includes(node.id)`, as the comments at lines 193-195 and the filter at line 201 say | not executed | PageTree.UnlinkAsWrittenKeepsNode | PageTree.UnlinkRemovesNode |
| src/createPagesStatefully.js:37 | an `include` that is not an array panics with "options.path is required" | `include: 123` with a valid path and template. The test file expects the message to name `options.include` (test/createPagesStatefully.test.js:51-52) | include's own message, "options.include must be array of strings" | not executed | Validation.IncludeNotArrayAsWritten | Validation.MessageNamesOption |
