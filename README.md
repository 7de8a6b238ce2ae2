# assets-catalog, modelled in Dafny

assets-catalog turns the files under an assets directory into a typed,
nested catalogue. Every file becomes a leaf: a metadata record
`{ type, ext, mime, path }` filed under the segments of its path. The
catalogue is then rewritten and rendered as TypeScript source. This
project models the pure core of that pipeline and proves what it promises.
The core has five parts:

- **Meta inference** (`mime.dfy`):
  - the static `COMMON_MIME_TYPES` table, `getMimeType` and `guessAssetType`;
  - the two `buildMeta` variants, with the `mime-types` lookup taken as a
    function parameter.
- **Path segmentation** (`segments.dfy`):
  - the CLI's rule: normalised input prefix, `/`-split, extension cut from
    the last piece, then the trim at the first `assets` segment;
  - the runtime's rule: `baseDir` and leading slashes stripped, then the
    same split.
- **Nested insertion** (`deep_set.dfy`, `set_fold.dfy`,
  `runtime_trees.dfy`, `runtime.dfy`):
  - `setDeep` / `setDeepValue` is a method on a class `Tree` that holds
    the caller's object and changes it in place;
  - that method is proved equal to the functional specification `Insert`;
  - `processGlobFiles` is the loop that builds the metadata tree and the
    path tree in lock-step;
  - `createAssets` returns the two trees.
- **Tree transforms** (`transforms.dfy`): `mapMetaToPaths`, and
  `convertToRelativePaths` with its `traverse`.
- **Serializer** (`ts_literal.dfy`, `ts_decode.dfy`):
  - `toTsLiteral` is a method that follows the source's loops, proved equal
    to the function `TsLiteral`;
  - a decoder for the same layout serves as its partner: decoding a
    rendering gives the value back, so rendering is injective and keeps
    order, keys and strings exactly.

`js.dfy` holds the JavaScript value model:
- strings, integers, booleans, `null`, arrays and insertion-ordered
  objects;
- `Object.keys`, property reads and writes (`Put`), and path lookup.

`strings.dfy` holds the string primitives the source calls: `split`,
`join`, `lastIndexOf`, `indexOf`, one-character `replace`, the anchored
trims, `startsWith`, ASCII `toLowerCase`, and `String(n)` for integers.

## Model

| member | source | states |
|---|---|---|
| Mime.GetMimeType | src/utils.ts:49-51 | the table entry for the lower-cased extension when the table has it, the octet-stream default otherwise |
| Mime.GetMimeTypeCaseInsensitive | src/utils.ts:49-51 | `getMimeType(e) == getMimeType(lowercase(e))`, and the answer is never empty |
| Mime.GuessAssetTypeCaseInsensitive | src/utils.ts:56-71 | case never changes the answer, and the answer is never `application` |
| Mime.GuessAssetTypeClassifies | src/utils.ts:56-71 | image/audio/video/font exactly for their own extension lists, text exactly for `.json`/`.xml`/`.txt`, other exactly for everything else (each an if-and-only-if) |
| Mime.ListsDisjoint | src/utils.ts:59-62 | no extension sits in two of the lists, so the order of the checks never matters |
| Mime.MajorType | src/node-utils.ts:11 | `split('/')[0]`: the text before the first `/`, a prefix of the MIME type with no `/` in it |
| Mime.TypeOfMajor | src/node-utils.ts:13-18 | a major type that is one of the six named ones is its own tag, anything else gives `other` |
| Mime.ExtName | src/node-utils.ts:9 | `path.extname` for a path without a trailing `/`: empty or one dot followed by dot-free, slash-free text, and a suffix of the path |
| Mime.ExtNameFromLastDot | src/node-utils.ts:9 | the extension is non-empty exactly when the last path component has a dot after its first character, and is then a proper suffix of that component; with `ExtName`'s clauses this fixes it as the text from the component's last dot |
| Mime.MetaRecordFields | src/node-utils.ts:20-25 | each of `type`, `ext`, `mime`, `path` reads back the field the record was built from |
| Mime.MetaRecordShape | src/node-utils.ts:20-25 | a record has exactly the keys `type, ext, mime, path` in that order, distinct, and holds no array |
| Mime.BuildMetaFields | src/node-utils.ts:8-26 | `mime` is the lookup result or the default with no table fallback; `type` is always one of the seven tags, the major type when it is one of the six, `other` otherwise; `ext` is the lower-cased extension; `path` is the input unchanged |
| Mime.BuildMetaWithTableFallsBack | src/utils.ts:162-181 | a successful lookup gives the same record as the CLI's variant; a failed one falls back to `getMimeType` of the extension, hence to the table entry when the table lists it |
| Mime.TableMime | src/utils.ts:165 | the table variant records `lookup(p) \|\| getMimeType(ext)` as its MIME type |
| Strings.LastIndexOf | src/runtime.ts:24 | the last position of the character, or -1 exactly when it is absent |
| Strings.IndexOf | src/cli.ts:56 | the first position of the element, or -1 exactly when it is absent |
| Strings.TrimEnd | src/cli.ts:42 | `replace(/\/+$/, '')`: the longest prefix not ending in the character, everything cut being that character |
| Strings.TrimStart | src/runtime.ts:17 | `replace(/^\/+/, '')`: the longest suffix not starting with the character, everything cut being that character |
| Strings.ReplaceAll | src/cli.ts:41 | a global one-character replace: no change when the character is absent, nothing else is introduced, and with a one-character replacement every occurrence is replaced in place and every other character kept, length unchanged |
| Strings.JoinSplit | src/cli.ts:47 | joining the pieces of a split with the separator gives the string back |
| Strings.SplitJoin | src/cli.ts:47 | splitting a join of separator-free pieces gives the pieces back |
| Strings.NatToStringValue | src/utils.ts:110-111 | the decimal digits of `String(n)` denote `n` |
| Strings.NatToStringInjective | src/utils.ts:110-111 | distinct numbers print differently |
| Segments.FileKeyDotExt | src/runtime.ts:24-26 | a name is its file key followed by its extension; the extension is empty or starts with its only dot; key and name coincide exactly when the name has no dot |
| Segments.DotFileKey | src/cli.ts:50-52 | `.env` gets the empty key and the extension `.env` |
| Segments.PathSegments | src/cli.ts:47-54 | one segment per `/`-piece, all copied except the last, which loses its extension |
| Segments.PathSegmentsRoundTrip | src/cli.ts:47-54 | the segments joined by `/`, plus the extension, give the path back, and no segment holds a `/` |
| Segments.NormalizePrefix | src/cli.ts:40-42 | every `\` made `/`, all trailing `/` removed: no `\` and no trailing `/` remain |
| Segments.AnchorTrim | src/cli.ts:56-58 | unchanged without `assets`; otherwise exactly the segments after its first occurrence |
| Segments.CliSegmentsUntrimmed | src/cli.ts:44-56 | before the trim, the segments are `pathWithRoot` cut at every `/`, and they give it back with the extension |
| Segments.CliSegmentsExample | src/cli.ts:40-58 | `src/assets` with `sound/beep.mp3` gives `['sound', 'beep']` |
| Segments.CliEntry | src/cli.ts:44-61 | the keys are the CLI segments (`usedSegments`, whose meaning `CliSegmentsUntrimmed` and `AnchorTrim` state) and the record is `buildMeta(pathWithRoot)` (whose fields `BuildMetaFields` states): its `path` is `pathWithRoot`, not the absolute path, and its `ext` is the lower-cased extension of `pathWithRoot` |
| Segments.StripBase | src/runtime.ts:13-17 | the `baseDir` prefix is cut only when `baseDir` is non-empty and a prefix of the key; then every leading `/` goes |
| Segments.RuntimeSegmentsRoundTrip | src/runtime.ts:20-28 | the segments joined by `/`, plus the case-kept extension, give the stripped key; the extension is empty or starts with its only dot; there is always a segment |
| Js.Keys | src/runtime.ts:11 | `Object.keys`: one key per entry, in order |
| Js.KeyIndex | src/utils.ts:86 | the first position of a key, or -1 exactly when `k in o` is false |
| Js.Get | src/utils.ts:86 | a read finds a value exactly when the key is present, and that value is the key's entry |
| Js.Put | src/utils.ts:84 | `o[k] = v`: `k` then reads `v`, every other key reads as before, an existing key keeps its place and a new one goes last, and distinct keys stay distinct |
| DeepSet.Insert | src/utils.ts:76-92 | the object after `setDeep`: empty segments change nothing; otherwise the first key is added if it is new, and the path stays array-free |
| DeepSet.Tree.SetDeep | src/utils.ts:76-92 | the in-place walk (cursor down, then each level written back into its parent) leaves the tree's entries equal to `Insert` of the old entries; `setDeepValue` (src/runtime.ts:49-64) is the same walk and is modelled by the same method |
| DeepSet.Tree.constructor | src/runtime.ts:8-9 | a new tree is `{}` |
| DeepSet.LookupInsert | src/utils.ts:79-85 | after the call, following the segments from the root reaches the value |
| DeepSet.InsertTwice | src/utils.ts:76-92 | a second call with the same segments leaves only the second value |
| DeepSet.PutTwice | src/utils.ts:84 | a second assignment to a key overwrites the first |
| DeepSet.InsertElsewhere | src/utils.ts:79-91 | every path that parts ways with the segments reads as before |
| DeepSet.InsertThroughPrefix | src/utils.ts:86-89 | at each proper prefix of the segments there is now an object: the insertion below, into what was found there |
| DeepSet.ObjectOnPathGainsChild | src/utils.ts:86-89 | an object on the path, such as a metadata record, keeps all its keys and gains the child |
| DeepSet.LeafOnPathReplaced | src/utils.ts:86-88 | a string, number, boolean or `null` on the path is replaced by `{}` holding only the child |
| DeepSet.InsertWellFormed | src/utils.ts:84-87 | keys stay distinct at every level |
| DeepSet.InsertArrayFree | src/utils.ts:84-87 | an array-free tree stays array-free after an array-free value is inserted |
| DeepSet.ArrayFreeNoArrayOnPath | src/utils.ts:86 | in an array-free tree no walk meets an array |
| SetFold.ItemsOf | src/runtime.ts:11-40 | one `setDeepValue` call per key, in key order, with that key's segments and value |
| SetFold.Build | src/runtime.ts:8-41 | the object after the calls in order, starting from `{}`, stays array-free |
| SetFold.BuildAt | src/runtime.ts:39-40 | the first `i + 1` calls are the first `i` followed by one more `Insert` |
| SetFold.BuildWellFormed | src/runtime.ts:11-41 | keys stay distinct at every level through the whole run |
| SetFold.LookupAfterBuild | src/runtime.ts:11-41 | a call's value is read back at its segments when every later call's segments part ways with them |
| SetFold.LaterBelowEarlier | src/runtime.ts:58-61 | a call one level below the previous one extends an object written there, and replaces anything else with `{}` holding only the child |
| RuntimeTrees.KeyMetaFields | src/runtime.ts:24-36 | the runtime record: `type` guessed from the extension, `ext` case kept, `mime` from the static table, `path` the untrimmed key |
| RuntimeTrees.MetaStep | src/runtime.ts:39 | handling key `i` inserts its record at its segments into the metadata tree |
| RuntimeTrees.AssetsStep | src/runtime.ts:40 | handling key `i` inserts the key itself at the same segments into the path tree |
| RuntimeTrees.TreesWellFormed | src/runtime.ts:7-44 | both trees are array-free with distinct keys at every level |
| RuntimeTrees.LookupAfterFold | src/runtime.ts:11-41 | a key whose segments no later key shares or passes through is found at them: its record in one tree, itself in the other |
| RuntimeTrees.SameSegmentsLaterWins | src/runtime.ts:11-41 | two keys with the same segments: the later one wins in both trees |
| RuntimeTrees.TreesDiverge | src/runtime.ts:58-60 | a key one level below the previous one extends the earlier record in the metadata tree, but replaces the earlier path string in the path tree |
| Runtime.FileEach | src/runtime.ts:11-41 | the loop over the keys leaves each tree equal to the run of `Insert` calls it makes |
| Runtime.ProcessKeys | src/runtime.ts:11-41 | the two trees are built from the same segments, records in one and keys in the other |
| Runtime.ProcessGlobFiles | src/runtime.ts:7-44 | fresh trees, equal to the metadata and path trees of `Object.keys(files)`; the glob values are never read |
| Runtime.CreateAssets | src/runtime.ts:100-108 | `{ assetMeta, assets }` holding the two trees, with `baseDir` defaulting to `''` |
| Transforms.MapEntries | src/utils.ts:152-155 | the rebuilt object: same length, each entry's key kept and its value mapped |
| Transforms.MapMetaToPathsShape | src/utils.ts:144-157 | non-objects unchanged; an object with a string `path` becomes that string; any other object keeps its keys in order with each value mapped; arrays keep their length and each item is mapped in place |
| Transforms.MapEntriesKeys | src/utils.ts:152-155 | mapping keeps the keys, and every key reads back its mapped value |
| Transforms.RelativeForm | src/node-utils.ts:45-51 | a rewritten path starts with `.` and holds no `\`; it is the slashed path or `./` before it; a path already in that form is kept |
| Transforms.RelativeFormIdempotent | src/node-utils.ts:47-51 | rewriting twice is rewriting once |
| Transforms.PathAndTypeFolderFails | src/node-utils.ts:43-45 | an object with `path` and `type` keys whose `path` is not a string makes the conversion as written fail |
| Transforms.TraverseEntries | src/node-utils.ts:61-65 | a non-leaf object is rebuilt with the same keys in order and each value traversed |
| Transforms.TraverseAgrees | src/node-utils.ts:37-66 | the conversion as written succeeds exactly when no `path`/`type` object has a non-string `path`, and then it equals `Traverse` |
| Transforms.TraverseLeaf | src/node-utils.ts:43-58 | a leaf keeps its keys in order and every field but `path` untouched and untraversed; `path` becomes the rewritten relative path |
| Transforms.TraverseInner | src/node-utils.ts:60-65 | any other object keeps its keys in order, each value traversed |
| Transforms.TraverseLeavesRelative | src/node-utils.ts:45-51 | after the conversion every leaf reached from the root through non-leaf objects and arrays has a path that starts with `.` and holds no `\` |
| Transforms.TraverseNotLeaf | src/node-utils.ts:61-65 | an object that is not a leaf is not turned into one |
| Transforms.MapKeysKeep | src/node-utils.ts:62-63 | entries rebuilt under the same keys have the same key list |
| Transforms.ArrayBecomesNonLeaf | src/node-utils.ts:61-64 | an array comes back as an object with one entry per item, keyed by its decimal index and holding that item traversed, never as a leaf |
| Transforms.TraverseWellFormed | src/node-utils.ts:61-65 | distinct keys stay distinct, including the index keys of a converted array |
| Transforms.SameKeysSameIndex | src/node-utils.ts:62-63 | where a key is found depends only on the key list |
| TsSource.Pad | src/utils.ts:98 | `'  '.repeat(n)`: exactly `2n` spaces |
| TsSource.EscapeQuotesInOnePass | src/utils.ts:104-106 | backslashes doubled before quotes are escaped means each character is escaped once, left to right |
| TsSource.Quote | src/utils.ts:107 | a string literal is wrapped in `'` at both ends and is at least two longer than the string |
| TsSource.KeyBareIffIdentifier | src/utils.ts:129-130 | a key is written bare exactly when it matches `^[A-Za-z_$][\w$]*$`, and otherwise as `toTsLiteral(k, 0)` |
| TsSource.ToTsLiteral | src/utils.ts:97-139 | the recursive method with its two loops computes `TsLiteral` |
| TsSource.RenderItems | src/utils.ts:114-119 | the `map` over the items builds exactly the item lines |
| TsSource.RenderEntries | src/utils.ts:126-133 | the loop over the entries pushes exactly the entry lines |
| TsDecode.ReadEscaped | src/utils.ts:104-107 | undoing `\\` and `\'` inside the quotes gives the string back, and stops at the closing quote |
| TsDecode.StringRoundTrip | src/utils.ts:103-107 | a string literal is read back as the string |
| TsDecode.NumberRoundTrip | src/utils.ts:110-111 | an integer is read back from its decimal form |
| TsDecode.KeyRoundTrip | src/utils.ts:129-132 | a key, bare or quoted, is read back up to the `:` after it |
| TsDecode.ArrayRoundTrip | src/utils.ts:114-120 | a non-empty array's rendering is read back as the same items in the same order |
| TsDecode.ObjectRoundTrip | src/utils.ts:122-136 | a non-empty object's rendering is read back as the same entries, keys and order included |
| TsDecode.ParseRendered | src/utils.ts:97-139 | every rendering, at any indentation and before whatever may follow a value, is read back as the value |
| TsDecode.DecodeTsLiteral | src/utils.ts:97-139 | decoding `toTsLiteral(v)` gives `v` |
| TsDecode.TsLiteralInjective | src/utils.ts:97-139 | distinct values never render alike, so nothing is lost or merged |

## Left out

- Filesystem and process code is not modelled: the directory walk, `mkdir`/`writeFile`, watch mode, main-module detection and `bin/cli.js`. `relFromRoot` is taken as an input.
- The timestamp header (src/cli.ts:80) depends on the clock.
- `parseArgs` is command-line glue. src/index.ts only re-exports.
- The CLI's fold (src/cli.ts:72-81) is left out. It assigns `setDeep`'s `undefined` return back to `metaTree`, so a second file would fail, and the `generateAssetsCode` it calls is not defined in src/utils.ts. The fold is modelled as the runtime does it.
- `mime.lookup` is not part of this model. It is a function parameter, and a result of `false` is `None`.
- `path.relative(fromDir, ·)` is not part of this model either. It is a function parameter of the conversion, with `path.dirname` of the output file folded into it.
- Mime.ExtName: models POSIX `path.extname` by its last-dot rule. For the name `..` it is not Node's answer (`.` here, `''` in Node); `.` gives `''` in both. A trailing `/` is not skipped as Node does: `a/b.txt/` gives `''` here and `.txt` in Node. The walk only passes file paths, which never end in `/`. Windows paths are out.
- Mime.GetMimeType: the table is a finite map with no prototype. In JavaScript, `COMMON_MIME_TYPES[key]` also finds inherited properties of `Object.prototype`, so `getMimeType('constructor')` returns the `Object` function and `getMimeType('__proto__')` returns `Object.prototype`, neither a string; the model answers the octet-stream default for these keys. The callers in the core pass only `''` or a dotted extension, which never name such a property.
- Numbers are integers. Floating point, `NaN`, `Infinity`, `undefined`, functions and the `String(value)` catch-all at src/utils.ts:138 are not modelled.
- Objects are insertion-ordered. JavaScript's rule that integer-like keys enumerate first is not modelled, and neither is a `__proto__` key.
- `toLowerCase` is ASCII only.
- DeepSet.Tree.SetDeep: requires that the walk meets no array before the last segment. JavaScript would keep such an array and set a named property on it, which the value model cannot hold. Every tree the catalogue builds is array-free, and this is proved (`RuntimeTrees.TreesWellFormed`), so the runtime never hits the restriction.
- DeepSet.Insert: the same restriction as `SetDeep`.
- Runtime.FileEach: takes the per-key segment and record computations as function parameters. `ProcessKeys` instantiates them with the runtime's own functions.
- Transforms.TraverseLeavesRelative: a leaf nested inside another leaf is not converted. This happens, for example, when files `x.png` and `x/y.png` make `y` a child of `x`'s record. `{...obj, path}` copies the leaf's other fields as they are, so the nested leaf keeps its unconverted path, and the model does the same. The relative-path promise covers only leaves reached through non-leaf objects and arrays.
- Aliasing between the two trees is not modelled beyond their being distinct objects.
- `toTsLiteral` writes a raw line break inside a string as it is, as the source does. The decoder reads it back, but whether the output is valid TypeScript is not judged.
- Where the code and its comments disagree, the model follows the code:
  - `setDeep` mutates its argument and returns nothing;
  - the anchor trim uses the first `assets`;
  - `.env` gets the key `''`;
  - the runtime keeps the extension's case and uses only the static table.

## Findings

| source | as written | input that shows it | evidently intended | confidence | as-written member | corrected member |
|---|---|---|---|---|---|---|
| src/node-utils.ts:43-45 | any object with both a `path` and a `type` key is taken for a leaf, and its `path` is handed to `path.relative` as a string | a folder holding files `path.png` and `type.png`: its object has `path` and `type` keys whose values are metadata records, so `path.relative` receives an object and throws | a leaf is a metadata record, that is an object whose `path` is a string, as `mapMetaToPaths` tells leaves apart (src/utils.ts:148) | not executed | Transforms.PathAndTypeFolderFails | Transforms.TraverseAgrees |
