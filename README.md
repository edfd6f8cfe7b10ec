# Hashed bundles and Play's `.md5` sidecars

This project models the two pieces of logic in the webpack build configuration of
overview-server (`web/webpack.config.js`) that decide how the Play host
application finds the bundler's hashed files.

* **The `RedirectPlayFrameworkUsingDummyMd5Files` emit hook.** Play's asset finder
  serves a versioned `X.js` by reading `X.js.md5` and then serving `<md5>-X.js`.
  Webpack names entry bundles `<chunkhash>-X.js`. For every emitted filename the hook
  takes the last `/`-segment and runs `^([a-f0-9]+)-(.*\.js)$` on it. On a match it
  records a sidecar `<group 2>.md5` whose contents are group 1, copied verbatim.
  After the scan it assigns every recorded sidecar into the compilation's asset
  dictionary. The model has:
  * the per-filename logic as functions (`Text.Split`, `Text.Basename`,
    `Md5Shim.ExecHashed`, `Md5Shim.Shim`);
  * the whole pass as functions on values (`Md5Shim.SidecarsOf`,
    `Md5Shim.InsertSidecars`, `Md5Shim.EmitPass`);
  * the hook itself as imperative code. `Md5Shim.Compilation` is a class whose
    `assets` dictionary is updated in place. `Md5Shim.CollectSidecars` is the
    `for…in` loop, `Md5Shim.InsertSidecarsInto` is the `forEach`, and `Md5Shim.Emit`
    runs one after the other. Each method is proved against the functions above.
* **Entry-name flattening.** Every entry path becomes an entry name with each `/`
  replaced by `-`, mapped to `bundle/<path>` (`Entries.Flatten`,
  `Entries.EntryPointsMap`, and the loop `Entries.BuildEntryPointsMap`).
  Together with the output templates `[chunkhash]-[name].js`, `[file].map` and
  `[chunkhash].chunk.js` (module `OutputNames`), this gives the round trip Play
  depends on.

Modules: `Wrappers` (Option), `Text` (split, join, basename, dirname, character
classes), `Md5Shim` (the hook), `Entries` (the entry table), `OutputNames` (the
filename templates and how the hook treats each kind of file).

Where the code and a natural reading of its intent could differ, the model follows the code:
* The second group is `(.*\.js)`, so the remainder may be just `.js` (`abc-.js` yields `.js.md5`).
* The `.` of the pattern does not match a line terminator (`\n`, `\r`, U+2028, U+2029). The model says so explicitly rather than assuming such names never occur.
* The directory part of a filename is computed (line 71) and never used: a sidecar is always named after the last segment only.
* Two hashed files with the same remainder give two sidecars of one name, and the one assigned last wins.
* A sidecar is assigned with plain assignment, so it would replace an existing asset of the same name.

## Model

| member | source | states |
|---|---|---|
| Text.Split | web/webpack.config.js:67 | `split('/')` yields at least one piece, so `pathParts[pathParts.length - 1]` always exists |
| Text.SplitPiecesLackSeparator | web/webpack.config.js:67 | no piece of a split contains the separator |
| Text.Join | web/webpack.config.js:71 | no contract of its own: it computes `join('/')` of a non-empty list, and `Text.JoinSplit` and `Text.SplitJoin` prove it is the inverse of `Text.Split` |
| Text.JoinSplit | web/webpack.config.js:67 | joining the pieces of a split with the separator gives back the original string |
| Text.SplitJoin | web/webpack.config.js:67 | splitting a join of separator-free pieces gives back exactly those pieces |
| Text.Basename | web/webpack.config.js:68 | the last segment contains no `/` |
| Text.Dirname | web/webpack.config.js:71 | no contract of its own: it computes the hook's unused `dirname`, and `Text.DirnameAndBasename` gives it its meaning |
| Text.DirnameAndBasename | web/webpack.config.js:67-71 | a filename with a `/` is its dirname, `/`, and its basename; without one it is its own basename and the dirname is empty |
| Text.BasenameUnder | web/webpack.config.js:67-68 | the basename of `dir/name` is `name` when `name` has no `/` |
| Text.BasenameAppend | web/webpack.config.js:67-68 | appending text without `/` to a filename appends it to the basename |
| Md5Shim.HexRun | web/webpack.config.js:70 | the run is a prefix made only of `[a-f0-9]`, and the next character, if there is one, is not in that class |
| Md5Shim.ExecHashed | web/webpack.config.js:70 | when `exec` returns groups, the segment is group 1, `-`, group 2; group 1 is non-empty lowercase hex; group 2 ends in `.js` and has no line terminator |
| Md5Shim.ExecHashedIffMatches | web/webpack.config.js:70 | `exec` returns the groups `(h, rest)` if and only if the segment decomposes as that match, so the split is at the first `-` |
| Md5Shim.ExecHashedNeedsJs | web/webpack.config.js:70 | a segment that matches ends in `.js` |
| Md5Shim.Shim | web/webpack.config.js:67-77 | a sidecar's name has no `/` and ends in `.js.md5`, and its contents are non-empty lowercase hex; `Md5Shim.ShimIffHashedBasename` states exactly when a filename yields one |
| Md5Shim.ShimIffHashedBasename | web/webpack.config.js:67-77 | a filename yields the sidecar named `rest.md5` with contents `h` if and only if its last segment is `h-rest` with `h` non-empty hex and `rest` ending in `.js`; otherwise it yields nothing |
| Md5Shim.ShimIgnoresDirectory | web/webpack.config.js:67-77 | the directory part never changes the sidecar: `dir/name` yields what `name` yields |
| Md5Shim.SidecarNameNotShimmed | web/webpack.config.js:70-77 | a sidecar's own name never yields a sidecar, since it ends in `.md5` |
| Md5Shim.SidecarsOf | web/webpack.config.js:64-79 | no contract of its own: it computes `fakeMd5Assets` after the `for…in` loop. `Md5Shim.SidecarsOfMembers` gives its contents, `Md5Shim.SidecarsOfUnshimmedSuffix` its insensitivity to unhashed files, and `Md5Shim.CollectSidecars` is proved equal to it |
| Md5Shim.SidecarsOfMembers | web/webpack.config.js:64-79 | the collected list holds a sidecar if and only if some visited filename yields it |
| Md5Shim.SidecarsOfUnshimmedSuffix | web/webpack.config.js:64-79 | visiting further filenames that yield nothing leaves the collected list unchanged |
| Md5Shim.InsertSidecars | web/webpack.config.js:81-86 | no contract of its own: it computes the dictionary after the `forEach`. `Md5Shim.InsertSidecarsAt` characterises every key of it, and `Md5Shim.InsertSidecarsInto` is proved equal to it |
| Md5Shim.InsertSidecarsAt | web/webpack.config.js:81-86 | after insertion a key is present if and only if it was before or some sidecar has that name; its value is the last sidecar of that name, else the old asset |
| Md5Shim.InsertSidecarsIdempotent | web/webpack.config.js:81-86 | inserting the same sidecars twice gives what inserting them once gives |
| Md5Shim.EmitPass | web/webpack.config.js:64-86 | no contract of its own: it computes the dictionary after the hook. Its meaning is stated by `Md5Shim.EmitPassAdditive`, `Md5Shim.EmitPassSidecarPresent`, `Md5Shim.EmitPassLastWins` and `Md5Shim.EmitPassRerun`, and `Md5Shim.Emit` is proved equal to it |
| Md5Shim.EmitPassAdditive | web/webpack.config.js:64-86 | every key present before stays, with its old asset, unless its name equals a generated sidecar's name |
| Md5Shim.EmitPassSidecarPresent | web/webpack.config.js:64-86 | every visited file of the hashed shape has its sidecar name as a key, with size equal to the length of the source; with no rival of that name the value is exactly that sidecar's hash |
| Md5Shim.EmitPassLastWins | web/webpack.config.js:64-86 | when filename `i` yields a sidecar and no later filename yields one of the same name, the pass leaves exactly that sidecar's asset (source the hash, size its length) under that name: the last visited file's hash wins |
| Md5Shim.EmitPassRerun | web/webpack.config.js:64-86 | running the pass again, over the old keys followed by added sidecar names, changes nothing: added keys are never scanned into new sidecars |
| Md5Shim.CollectSidecars | web/webpack.config.js:64-79 | the `for…in` loop builds exactly the list of sidecars of the visited filenames, in visiting order |
| Md5Shim.InsertSidecarsInto | web/webpack.config.js:81-86 | the `forEach` leaves the dictionary equal to the old one with every sidecar assigned in turn |
| Md5Shim.Emit | web/webpack.config.js:64-86 | the hook leaves the dictionary as the collected sidecars inserted into the old one; every old key remains; every hashed file's sidecar name is a key |
| Entries.Flatten | web/webpack.config.js:94 | the flattened name has the path's length, contains no `/`, and differs from the path only where the path has `/`, which becomes `-` |
| Entries.EntryPointsMap | web/webpack.config.js:92-95 | no contract of its own: it computes `entryPointsMap` after the `for…of` loop. `Entries.EntryPointsMapAt`, `Entries.EntryPointsMapLastWins` and `Entries.EntryPointsMapSize` give its meaning, and `Entries.BuildEntryPointsMap` is proved equal to it |
| Entries.BuildEntryPointsMap | web/webpack.config.js:92-95 | the `for…of` loop builds the entry map, each entry assigned in turn |
| Entries.EntryPointsMapAt | web/webpack.config.js:92-95 | every key has no `/`, is the flattened form of some entry and maps to `bundle/` followed by that entry; every entry's flattened name is a key |
| Entries.EntryPointsMapLastWins | web/webpack.config.js:92-95 | an entry that no later entry collides with maps its flattened name to `bundle/` followed by itself |
| Entries.EntryPointsMapSize | web/webpack.config.js:92-95 | when no two entries flatten alike, the map has one key per entry |
| Entries.FlattenKeepsDifference | web/webpack.config.js:94 | two paths that differ at a position where neither has `/` flatten to different names |
| Entries.EntryPointsFlattenDistinct | web/webpack.config.js:8-24 | the fifteen configured entry paths flatten to pairwise distinct names |
| Entries.EntryPointsMapHasFifteenKeys | web/webpack.config.js:8-95 | the configured entry map has exactly fifteen keys |
| Entries.FlattenCollision | web/webpack.config.js:93-94 | flattening is not injective in general: `a/b` and `a-b` both become `a-b`, and the later entry's value wins |
| OutputNames.EntryFilename | web/webpack.config.js:110 | no contract of its own: the template `[chunkhash]-[name].js`, whose sidecar `OutputNames.EntryFileRoundTrip` pins |
| OutputNames.SourceMapFilename | web/webpack.config.js:111 | no contract of its own: the template `[file].map`, which `OutputNames.SourceMapNeverShimmed` shows never yields a sidecar |
| OutputNames.ChunkFilename | web/webpack.config.js:112 | no contract of its own: the template `[chunkhash].chunk.js`, which `OutputNames.ChunkNeverShimmed` shows never yields a sidecar |
| OutputNames.EntryFileRoundTrip | web/webpack.config.js:110 | the entry bundle `h-n.js`, with `h` non-empty hex and `n` free of `/` and of line terminators, yields exactly the sidecar `n.js.md5` holding `h`, even when `n` contains `-` |
| OutputNames.EntryBundleRoundTrip | web/webpack.config.js:92-110 | for every entry path without a line terminator, the bundle named after its flattened name yields the sidecar `<flattened>.js.md5` holding the chunkhash |
| OutputNames.ChunkNeverShimmed | web/webpack.config.js:112 | a shared chunk `h.chunk.js` never yields a sidecar |
| OutputNames.SourceMapNeverShimmed | web/webpack.config.js:111 | a source map `<file>.map` never yields a sidecar |
| OutputNames.RivalBundlesLastWins | web/webpack.config.js:64-86 | when bundles `h1-n.js` and then `h2-n.js` are visited, `n.js.md5` holds `h2`, with size its length |
| OutputNames.SingleEntryBuild | web/webpack.config.js:110-111 | after the pass over one bundle and its source map, both are untouched and the only new asset is `n.js.md5` holding the hash |

## Left out

- app/controllers/Application.java: a Play controller that binds forms, calls the database and renders templates; none of that logic is visible, so it is not part of this model.
- The registration `compiler.plugin('emit', …)` and the asynchronous `callback()`: plumbing into webpack. Only the body of the hook is modelled, as an operation on the asset dictionary.
- The order of a `for…in` enumeration: it is the parameter `order` of `Md5Shim.Emit`, required to list every key of the dictionary once. JavaScript's own property ordering is not modelled.
- Asset contents: an emitted asset is modelled by the string its `source()` returns and the number its `size()` returns. Binary sources and webpack's source objects are not modelled. A sidecar's `contents.length` counts UTF-16 code units. It equals the model's character count because the contents are ASCII hex.
- Keys with special meaning to JavaScript objects (such as `__proto__`) are treated like any other key.
- Webpack's module resolution through the `resolve.alias` table, `resolve.extensions` and `resolve.modules`. These are plain data. The matching policy is inside webpack, so alias precedence is not modelled.
- Chunk partitioning and the computation of `[chunkhash]`: foreign code. A chunkhash is an input string, required to be lowercase hex where a lemma needs it.
- The coffee and uglify-es loaders, `ProvidePlugin`, `HashedModuleIdsPlugin`, the `library`/`libraryTarget` global export, and `devtool`: opaque transforms and settings with no visible logic.
- `WebpackCleanupPlugin`: it deletes the output directory, which is filesystem I/O.
- `output.path`, `output.publicPath` and `context`: directory constants consumed by webpack and by page templates, not by the modelled logic.
