# pr1 build pipeline, modelled in Dafny

pr1 is a small build tool for single-page applications. Its `build` function (src/build.js)
empties a distribution directory, then compiles each entry point into it in turn.

- A `.js` entry is bundled by rollup, then optionally passed through Babel and UglifyJS, into
  one stand-alone IIFE.
- Any other entry is an HTML page. `compileHTML` copies the page and the vendor files next to
  the output, copies the static files, and bundles the page's main script. It then rewrites the
  page: preload links and an optional stylesheet go into `<head>`, and vendor `<script>` lines go
  before the marker line. The `pr1_module=1` flag is stripped. Finally `addSrcHash` appends a
  content digest to every local `src`/`href` it can resolve.
- The command line (`pr1.js`) picks the entry, the port, the `build` keyword and the
  configuration file from `process.argv`. It looks for the application root upward from the
  working directory, and chooses and loads the configuration. Only then does it dispatch: it
  starts the development server, or, when `build` is given, calls `runBuild`, which is empty
  (src/pr1.js:57-59). So the command line never reaches `build`, and in build mode it does
  nothing beyond choosing and loading the configuration (which can throw).

The model keeps the code's own order of effects. The file system is a value (`FileSystem.Disk`:
files with their text, and directories). Every copy, write, read and existence check is taken on
the disk the earlier steps left, so the hash pass sees the vendor, static and polyfill copies and
the bundle, as it does at run time.

Modules:

- `Outcomes`: option, error and result values. `MapOrFail` models `Array.map` with a callback
  that may throw. `Thread` is a run of steps on a shared state where the first throw ends the run.
- `Text`: string operations of JavaScript. `String.prototype.replace` with a string pattern is
  `ReplaceFirst`.
- `Paths`: POSIX `path.resolve`, `path.basename` and `path.dirname` over path segments.
- `FileSystem`: `fs.copySync`, `fs.readFileSync`, `fs.outputFileSync`/`fs.writeFileSync`,
  `fs.removeSync`, `fs.ensureDirSync` and `fs.existsSync`.
- `RefScanner`: the global regular expression `/(href|src)=("|')?[^ "']+\2?/gm` as a leftmost,
  non-overlapping scan.
- `SrcHash`: `addSrcHash`.
- `Bundler`: `bundle`, the external list and the stand-alone bundle's global name.
- `HtmlAssembler`: `compileHTML`.
- `Build`: `compile` and `build`.
- `Cli`: `pr1.js`.

Operations that change the disk step by step are methods with loops, proved equal to the
function that specifies them. These are `AddSrcHash`, `CopyAll`, `VendorPass`, `CompileHtml`,
`Build`, `ParseArgs` and `FindAppRootPath`. The lemmas are stated about those functions.

Two defects of the code are listed under "## Findings". Each has a member that models the code
as written, but the rest of the model uses the corrected behaviour. `SrcHash.HashPass` (and so
`AddSrcHash`, `compileHTML` and `build`) puts the digest right after the value, where the code
can put it inside the attribute name. Where the code throws for want of an application root,
`Cli.Run` serves without a configuration, or is `Idle` in build mode; `Cli.RunAsWritten` keeps
the throw in both modes.

Behaviour of the code worth knowing:

- The hash pass replaces only the first occurrence of each token. A token that appears twice
  gets the digest twice on its first occurrence (`DuplicateTokensHashFirstTwice`).
- A second hash pass appends `&digest` after the first digest (`HashPassNotIdempotent`).
- A page with no `src`/`href` at all makes `txt.match` return `null`, and the `map` on it throws
  (`HashPassNoReferencesIff`).
- A missing `</head>` is not an error: the `replace` leaves the page as it is (`HeadInsertion`).
- The entries of one build run one after another, each on the disk the previous one left.
- In the `--config=` value only a leading quote is stripped. The `\1$` alternative of
  `/^('|")|\1$/g` refers to a group that has not matched, so it matches the empty string and a
  trailing quote survives (`TrailingQuoteSurvives`).

## Model

| member | source | states |
|---|---|---|
| `Text.ReplaceFirst` | src/build.js:64 | `html.replace(token, rewritten)` with a string pattern: the page is unchanged when the token is absent; otherwise only the first occurrence is replaced and the text around it is kept |
| `Text.BeforeFirst` | src/build.js:53 | `src.split('?')[0]`: the longest prefix without `?`, which ends at the end or at the first `?` |
| `RefScanner.MatchAtIff` | src/build.js:50 | the pattern matches at a position exactly when `href=` or `src=` starts there and is followed by a value character, or by a quote and a value character |
| `RefScanner.MatchAtMaximal` | src/build.js:50 | the value run is greedy and stops only at the end, a space or a quote; the closing quote is taken exactly when it repeats the opening one; an unquoted match never has a quote where its value starts |
| `RefScanner.MatchAtWellFormed` | src/build.js:50 | every match has name `href` or `src`, a non-empty value of value characters, and a closing quote only if it equals the opening one |
| `RefScanner.MatchAtOccurs` | src/build.js:50 | the text of a match occurs in the page at the match's position |
| `RefScanner.ScanSound` | src/build.js:50 | every token the global scan returns is the match of the pattern at its own position |
| `RefScanner.ScanOrdered` | src/build.js:50 | the tokens of the scan follow one another in text order without overlapping |
| `RefScanner.ScanLeftmost` | src/build.js:50 | no match starts before the first token of the scan |
| `RefScanner.ScanResumes` | src/build.js:50 | after a token, the `g` flag resumes the scan where the token ends |
| `RefScanner.ScanCovers` | src/build.js:50 | every position where the pattern matches lies inside some token of the scan |
| `RefScanner.ScanEmptyIff` | src/build.js:50 | the scan is empty exactly when the pattern matches nowhere |
| `SrcHash.DropNameRef` | src/build.js:52 | removing `href=`/`src=` from a token leaves its quotes and value |
| `SrcHash.SourceOfRef` | src/build.js:52 | stripping the name and the quotes from a token gives exactly its value |
| `SrcHash.TextMatchesAt` | src/build.js:50 | wherever the text of a well-formed token occurs, the pattern matches |
| `SrcHash.Separator` | src/build.js:57 | the suffix starts with `&` exactly when the value already holds a `?`, and with `?` otherwise |
| `SrcHash.RewriteTokenRef` | src/build.js:57 | the corrected rewrite puts the suffix right after the value, before any closing quote, and keeps the name and opening quote |
| `SrcHash.RewriteTokenAgrees` | src/build.js:57 | the code's `i.replace(src, …)` gives the corrected rewrite whenever the value's first occurrence in the token is the value itself |
| `SrcHash.RewriteTokenAsWrittenMisplaces` | src/build.js:57 | for `src=s` the code's rewrite gives `s?hrc=s`, the corrected rewrite `src=s?h` |
| `SrcHash.RewriteFor` | src/build.js:51-60 | the `map` callback throws exactly when the file a local value names is a directory, with `EISDIR` on that path; it gives `null` exactly for an `http` value or a value naming nothing; otherwise the file exists and the rewrite is the token with separator and the digest of the file's text |
| `SrcHash.ApplyAllStep` | src/build.js:62-66 | each non-null result replaces the first occurrence of its token in the page the earlier results left; a `null` changes nothing |
| `SrcHash.AddSrcHash` | src/build.js:48-68 | the `map` then the `forEach` loop compute the hash pass `HashPass`; its token rewrite is the corrected `RewriteToken` of the first "## Findings" row, not the code's `i.replace(src, …)` |
| `SrcHash.HashPassNoReferencesIff` | src/build.js:50-51 | the pass throws for want of a match exactly when the pattern matches nowhere in the page |
| `SrcHash.HashPassReadsDirectoryIff` | src/build.js:51-61 | on a page with tokens, the pass fails exactly when some local value names a directory, and then with the error of the first such token |
| `SrcHash.ApplyNothing` | src/build.js:62-66 | a list of `null` results leaves the page unchanged |
| `SrcHash.HashPassKeepsPage` | src/build.js:54-60 | a page whose tokens are all absolute URLs or missing files comes back unchanged |
| `SrcHash.FirstTokenFirstOccurrence` | src/build.js:50 | the first token is well formed and its first occurrence in the page is where it was matched |
| `SrcHash.HashOneToken` | src/build.js:53-64 | one eligible token naming a file: the page's first occurrence of it is replaced by the token with separator and digest of the file's contents |
| `SrcHash.HashOneRef` | src/build.js:57-64 | for a token first occurring where it was matched, the suffix lands right after its value in the page |
| `SrcHash.HashPassSingleReference` | src/build.js:48-68 | a page with exactly one token, naming a file, gets separator and digest right after that value and is otherwise unchanged |
| `SrcHash.HashPassStep` | src/build.js:50-66 | on a page with any number of tokens whose callbacks do not throw, the `j`-th token changes nothing when it is an `http` value or names nothing; otherwise it names a file, and when its text first occurs at `p` in the page the earlier entries left, the separator and digest go right after its value there and nothing else changes |
| `SrcHash.ApplyEntry` | src/build.js:62-66 | the same step for any well-formed token together with its callback result |
| `SrcHash.HashPassApplies` | src/build.js:48-68 | when the page has tokens and no callback throws, the pass gives the page after every rewrite in scan order |
| `SrcHash.ScanLoneToken` | src/build.js:50 | the page `href=v` or `src=v` with an unquoted value is one token |
| `SrcHash.HashPassLoneToken` | src/build.js:48-68 | the page `href=v` naming a file becomes `href=v` plus separator plus digest |
| `SrcHash.HashPassNotIdempotent` | src/build.js:57 | hashing `href=v` gives `href=v?d`, and hashing that again gives `href=v?d&d` |
| `SrcHash.TwinTokensScan` | src/build.js:50 | the page `src=v src=v` yields the same token twice |
| `SrcHash.DuplicateTokensHashFirstTwice` | src/build.js:62-66 | on `src=v src=v` both rewrites hit the first token, which gets the digest twice, and the second token keeps none |
| `Bundler.Vendor.Shipped` | src/build.js:81 | the production path (`f[1]`) when present and non-empty, the development path (`f[0]`) otherwise |
| `Bundler.External` | src/build.js:15 | rollup leaves out each vendor's development module, in declaration order |
| `Bundler.OutName` | src/build.js:144 | `pr1.modules.` followed by the entry's base name with every `.` turned into `_` |
| `Bundler.OutNameDots` | src/build.js:144 | the global name has exactly two dots, those of `pr1.modules.` |
| `Bundler.Bundle` | src/build.js:12-45 | every error is a rollup, Babel or UglifyJS error; no rollup configuration throws; a success means rollup generated code; a Babel error comes after rollup succeeded, a minifier error after rollup and Babel did; without UglifyJS the result is Babel's output, and without Babel and UglifyJS it is rollup's output or rollup's error |
| `FileSystem.CopyPath` | src/build.js:75 | `fs.copySync` throws exactly when the source is missing; a file is copied with its contents, a directory lands as a directory |
| `FileSystem.CopyTreeContents` | src/build.js:95 | every file inside a copied directory lands under the destination with its contents |
| `FileSystem.WriteGrows` | src/build.js:43 | `fs.outputFileSync` keeps every path and stores the new contents (missing parent directories are not created; see "## Left out") |
| `FileSystem.CopyPathGrows` | src/build.js:85 | a copy removes no file or directory |
| `FileSystem.CopyEachFails` | src/build.js:80-86 | a run of copies fails only on a source that was already missing before the run started, with that path |
| `FileSystem.CopyEachGrows` | src/build.js:93-97 | a run of copies that succeeds keeps every path and creates every destination |
| `FileSystem.CopyEachSucceeds` | src/build.js:93-97 | when every source exists at the start, the whole run of copies succeeds |
| `FileSystem.ReadFile` | src/build.js:89 | `fs.readFileSync` gives a file's contents, `EISDIR` for a directory and `ENOENT` for a missing path |
| `FileSystem.FreshDir` | src/build.js:164-167 | after `removeSync` and `ensureDirSync` the directory exists and is empty, and no file or directory outside it changed (missing ancestors are not created; see "## Left out") |
| `HtmlAssembler.MainAtPieces` | src/build.js:90 | a main-script match is `src="`, a quote-free value and `?pr1_module=1"` |
| `HtmlAssembler.MainAtIndexIff` | src/build.js:90 | the matcher at a position finds a value exactly when the pattern matches there, and then the only such value |
| `HtmlAssembler.MainFrom` | src/build.js:90 | `exec` finds the leftmost match, or none when the pattern matches nowhere |
| `HtmlAssembler.LineEnd` | src/build.js:124 | the marker line runs to the first line break or the end of the page |
| `HtmlAssembler.FlagInside` | src/build.js:124 | `.+pr1_module=1.+`: the flag lies inside the line with at least one character on each side |
| `HtmlAssembler.MarkerFrom` | src/build.js:124 | the marker line is the first line start from which such a line runs |
| `HtmlAssembler.MarkerLineFirstOccurrence` | src/build.js:125 | the first occurrence of the marker line's text in the page is the marker line itself |
| `HtmlAssembler.VendorsBeforeMarker` | src/build.js:125 | the vendor block and a line break are inserted right before the marker line, and the rest is unchanged |
| `HtmlAssembler.FlagParamFrom` | src/build.js:127 | finds the leftmost `?pr1_module=1` or `&pr1_module=1` |
| `HtmlAssembler.StripFlag` | src/build.js:127 | the first flag parameter is cut out with its separator; a page without one is unchanged |
| `HtmlAssembler.StripKeepsVendorSrc` | src/build.js:127 | stripping the flag never removes a `src="./vendor/` reference |
| `HtmlAssembler.HeadInsertion` | src/build.js:114-120 | a block and a line break go right before the first `</head>`; a page without one is unchanged |
| `HtmlAssembler.WithHeadOrder` | src/build.js:113-120 | before the first `</head>` come the preload block, a line break, then the stylesheet line and a line break when the bundle's `.css` exists; a page without `</head>` is unchanged |
| `HtmlAssembler.AssembleSteps` | src/build.js:113-130 | the text passes in order: no marker line throws; otherwise the vendor block and a line break go before the marker line, the flag is cut, and the hash pass runs on the result |
| `HtmlAssembler.PreloadBlockShape` | src/build.js:84 | the preload block holds no `</head>` and starts with a space when non-empty |
| `HtmlAssembler.HeadStaysFirst` | src/build.js:114-120 | after the preload block and a line break go in, the first `</head>` is still the original one, shifted by them |
| `HtmlAssembler.VendorNames` | src/build.js:80-82 | the file name of each vendor, in declaration order |
| `HtmlAssembler.VendorFiles` | src/build.js:107-111 | the vendor names, then `polyfill.min.js` last exactly when the bundle uses `regeneratorRuntime` as a word |
| `HtmlAssembler.ScriptLines` | src/build.js:83 | one `<script src="./vendor/…">` line per name, in order |
| `HtmlAssembler.PreloadLines` | src/build.js:84 | one preload link per name, in order |
| `HtmlAssembler.PolyfillLines` | src/build.js:109-110 | the polyfill's script and preload lines come after all the vendor lines |
| `HtmlAssembler.ScriptLineHasVendorSrc` | src/build.js:83 | every vendor script line holds a `src="./vendor/` reference |
| `HtmlAssembler.Page` | src/build.js:70-133 | a successful `compileHTML` removes nothing from the disk and leaves the page at its target path |
| `HtmlAssembler.FromMain` | src/build.js:93-132 | from the static copies on, a success removes nothing and writes the page |
| `HtmlAssembler.WithBundle` | src/build.js:104-132 | from the page read on, a success removes nothing and writes at the target the page assembled on the disk after the polyfill copy; without the polyfill it is `Finish` on the same disk |
| `HtmlAssembler.Finish` | src/build.js:113-132 | the page is written exactly when the text passes succeed, an error is theirs, the target then holds the assembled page, and every other path keeps what it had |
| `HtmlAssembler.VendorSrcIsReference` | src/build.js:50 | a page holding `src="./vendor/` never fails the hash pass for want of a match |
| `HtmlAssembler.AssembleHasReference` | src/build.js:113-130 | with at least one vendor line, the assembled page never fails the hash pass for want of a match |
| `HtmlAssembler.BlockKeepsReference` | src/build.js:125-130 | a vendor block inserted into the page survives the flag removal as a reference for the hash pass |
| `HtmlAssembler.MainAtRef` | src/build.js:90 | a main script whose path starts with a value character other than `<`, `?` or `&` leaves `src="` and that character in the page |
| `HtmlAssembler.HeadKeepsMainRef` | src/build.js:114-120 | a head insertion keeps such a main-script reference |
| `HtmlAssembler.MarkerKeepsMainRef` | src/build.js:125 | the vendor block before the marker line keeps it |
| `HtmlAssembler.StripKeepsMainRef` | src/build.js:127 | cutting the flag parameter keeps it |
| `HtmlAssembler.MainRefIsReference` | src/build.js:50 | a page holding it gives the hash pass a match |
| `HtmlAssembler.AssembleHasMainReference` | src/build.js:113-130 | without any vendor line, a page holding the main script's reference never fails the hash pass for want of a match |
| `HtmlAssembler.WithBundleHasReference` | src/build.js:104-132 | from the page read back on, `compileHTML` never fails for want of a reference when there is a vendor, the polyfill, or the main script's reference |
| `HtmlAssembler.PageHasReference` | src/build.js:70-133 | with at least one configured vendor, `compileHTML` never fails for want of a reference |
| `HtmlAssembler.PageCopiesVendors` | src/build.js:75-86 | after a successful `compileHTML` the page and every vendor file are in the output directory, and nothing was removed |
| `HtmlAssembler.CopyAll` | src/build.js:94-96 | the `static` loop performs the run of copies in order and stops at the first missing source |
| `HtmlAssembler.VendorPass` | src/build.js:80-86 | the vendor loop collects one script line and one preload line per vendor and performs the vendor copies |
| `HtmlAssembler.AssembleHtml` | src/build.js:113-130 | the text passes of the page, in the code's order |
| `HtmlAssembler.CompileHtml` | src/build.js:70-133 | the method computes `compileHTML`'s disk or error |
| `HtmlAssembler.CompileFromMain` | src/build.js:93-133 | the method computes `compileHTML` from the static copies on |
| `HtmlAssembler.CompileWithBundle` | src/build.js:104-133 | the method computes `compileHTML` from the polyfill step on |
| `Build.DistDir` | src/build.js:158-160 | a non-empty `dist` is resolved against the configuration file's directory, otherwise `dist` under the application root; the result is absolute |
| `Build.Compile` | src/build.js:135-153 | a success writes the entry's output and removes nothing; a `.js` entry fails exactly when its bundle does, with the bundle's error, and otherwise stores the bundle; another entry is `compileHTML` |
| `Build.Build` | src/build.js:156-173 | empties the distribution directory, then compiles the entries in order on the disk each leaves |
| `Build.BuildStartsEmpty` | src/build.js:164-167 | the entries are compiled into an empty directory, and no file or directory outside it was changed (missing ancestors of `dist` are not created; see "## Left out") |
| `Build.BuildWritesEveryEntry` | src/build.js:169-171 | a build that succeeds has written every entry's output and removed nothing it started from |
| `Build.BuildStopsAtFirstFailure` | src/build.js:169-171 | a build fails exactly when some entry fails after the entries before it succeeded, and then with that entry's error |
| `Build.ScriptBuildFailsOnlyInBundle` | src/build.js:12-45 | a build of `.js` entries can fail only with a rollup, Babel or UglifyJS error, never on the disk |
| `Build.PageEntryHasReference` | src/build.js:145-146 | with vendors configured, a page entry never fails for want of a reference |
| `Build.ScriptEntryOutput` | src/build.js:143-144 | with a rollup configuration and without Babel and UglifyJS, a `.js` entry's output file holds rollup's bundle under its `pr1.modules.` name, and a rollup error ends it |
| `Cli.RuleOf` | src/pr1.js:14-26 | an argument is an entry when it ends in `.html`, else the build flag when it is `build`, else a port when all digits, else a configuration option when it starts with `--config=`; anything else is ignored |
| `Cli.ConfigPathOf` | src/pr1.js:25 | the path is the second `=`-separated field with a leading quote dropped |
| `Cli.ParseArgs` | src/pr1.js:13-27 | the `forEach` over the arguments computes the settings |
| `Cli.ClassifyStep` | src/pr1.js:14-26 | one argument sets only the field its rule names, and only the build flag sets `isBuild` |
| `Cli.LastArgumentWins` | src/pr1.js:13-27 | the entry, the port and the configuration path come from the last argument of their kind |
| `Cli.UnsetKeepsInitial` | src/pr1.js:7-27 | with no argument of a kind, its setting keeps its initial value (`''`, `'8686'`, `''`) |
| `Cli.BuildFlagSticks` | src/pr1.js:17-19 | `isBuild` holds exactly when some argument is `build` |
| `Cli.ConfigField` | src/pr1.js:25 | the second field of `--config=v` is `v` up to its first `=` |
| `Cli.TrailingQuoteSurvives` | src/pr1.js:25 | for a quoted value the leading quote is dropped and the trailing quote kept |
| `Cli.ConfigPathCutAtEquals` | src/pr1.js:25 | a path with an `=` is cut there |
| `Cli.NearestRoot` | src/pr1.js:40-49 | the nearest directory at or above the working directory, below the root, holding `package.json`; none when no such directory holds one |
| `Cli.FindAppRootPath` | src/pr1.js:40-49 | the upward loop finds the nearest such directory and never tests the root |
| `Cli.SelectConfigAsWritten` | src/pr1.js:30-38 | an explicit path is resolved against the working directory; without one the code throws exactly when there is no application root |
| `Cli.SelectConfig` | src/pr1.js:30-38 | agrees with the code whenever the code does not throw, and gives no configuration when it does; a default configuration is one that exists |
| `Cli.NoAppRootThrows` | src/pr1.js:33-35 | with no `--config` and no `package.json` above the working directory, `path.resolve(null, …)` throws |
| `Cli.DefaultConfigBesideNearestRoot` | src/pr1.js:33-37 | without `--config` the configuration is `.pr1.config.js` beside the nearest `package.json` when that file exists |
| `Cli.Run` | src/pr1.js:28-55 | the command is `Idle` exactly when `build` was given (`runBuild` is empty), and otherwise serves on the parsed port with the configuration of the corrected `SelectConfig` of the second "## Findings" row; where the code throws, the model serves without a configuration, or is `Idle` in build mode |
| `Cli.RunAsWritten` | src/pr1.js:28-55 | the configuration is chosen before the `isBuild` dispatch: the script throws exactly when that choice throws, in build mode as in serve mode; otherwise it is `Idle` exactly when `build` was given |
| `Cli.RunAgrees` | src/pr1.js:28-55 | the corrected script equals the script as written whenever that does not throw; where it throws, the corrected one is `Idle` in build mode and serves without a configuration otherwise |
| `Cli.ServesOnDefaultPort` | src/pr1.js:8-55 | `node pr1` with no arguments serves on port 8686 |

## Left out

- Rollup, Babel and UglifyJS are functions in the configuration that give either code or an
  error message, and a missing `rollupConfig` is `None`. What code they produce, their plugins,
  globals, the `iife` format and the `context` option are not modelled. Two throws are not
  modelled either: spreading `config.rollupConfig.plugins` when a present `rollupConfig` has no
  `plugins` (src/build.js:16), and `path.basename(undefined)` for an empty vendor pair
  (src/build.js:81-82); the model takes every present `rollupConfig` as usable and every
  vendor as having a development path.
- The rollup plugin of this repository is not part of this model. It can write a stylesheet beside
  the bundle. In the model, the sibling `.css` file exists only if it was on the disk before.
- `getShortMd5` is the `digest` parameter, a function of the file's text. Files are text, not
  bytes.
- `String.prototype.replace` treats `$&`, `$1` and similar in a replacement string specially.
  The model inserts replacement text literally.
- The `PR1_CONFIG_TARGET` environment variable (src/build.js:162) is not modelled. The
  distribution directory is passed explicitly.
- The `beforeBuild` and `afterBuild` hooks (src/build.js:139-141, 150-152) are not modelled.
  They are arbitrary user code.
- Loading the configuration with `require` is not modelled: running the configuration file
  can itself throw or have effects, in build mode too. `Cli.ConfigChoice` says which file
  would be loaded.
- The development server (src/pr1.js:54) is the `Serve` action. `runBuild` is empty in the
  source (src/pr1.js:57-59), so a build request is the `Idle` action.
- Paths are POSIX paths. Backslash separators are not modelled. The Windows drive-root stop of
  the upward search is kept as a test on the rendered path, but a POSIX path never meets it.
- Some `fs-extra` behaviour is not modelled:
  - `copySync` creating missing parent directories;
  - its refusal to copy a directory into itself;
  - its refusal to copy a path onto itself;
  - its refusal to copy a file onto a directory, or a directory onto a file (the model lets the
    destination end up both a file and a directory);
  - `writeFileSync` on a directory;
  - `outputFileSync` creating the missing parent directories of the file it writes;
  - `ensureDirSync` creating the missing ancestors of the directory it makes.
- `process.argv` is the whole list, including the node binary and the script path. They are
  classified like any other argument.
- The `await` chain is sequential, and the model is sequential.
- WriteGrows: `Disk.Write` adds the file alone, while `outputFileSync` (src/build.js:43) also
  creates its missing parent directories. So a path that names such a directory exists at run
  time but not in the model: a page whose main script is `js/app.js` written into a `dist`
  without `js/`, holding `href="js"`, makes the code's hash pass throw `EISDIR`, where the
  model finds nothing there and leaves the token alone. Modelling the parents would change
  every "nothing else changes" statement about the disk's directories.
- FreshDir: `EnsureDir` adds `dist` alone, while `ensureDirSync` (src/build.js:167) also
  creates its missing ancestors, so "nothing outside it changed" holds of the model only; at
  run time ancestors of `dist` that were missing are added.
- BuildStartsEmpty: the same gap as `FreshDir`, for the directory the build starts from.
- `HtmlAssembler.Page` and `HtmlAssembler.FromMain`: their own contracts state only that a
  success keeps every path and writes the page. The text written is stated one step later, by
  `WithBundle` and `Finish` (the assembled page), and the assembled page by `WithHeadOrder`,
  `AssembleSteps`, `VendorsBeforeMarker`, `StripFlag` and the hash pass lemmas. The static
  copies and the bundle write in between can change what is read back, so no closed form is
  given for the whole.
- `HtmlAssembler.PageHasReference` and `Build.PageEntryHasReference` require a configured
  vendor. Without one, the reference must come from the polyfill line or the main script's
  `src`, and a static copy
  or the bundle write can overwrite the page before it is read back, so the claim is proved
  only from the read-back page on (`WithBundleHasReference`, `AssembleHasMainReference`). A
  main script path starting with `<`, `?` or `&` is not covered there.

## Findings

| source | as written | input that shows it | evidently intended | confidence | as-written member | corrected member |
|---|---|---|---|---|---|---|
| src/build.js:57 | `i.replace(src, src + sep + digest)` replaces the first occurrence of the value inside the whole token, which can lie inside the attribute name | the token `src=s` for an existing file `s` becomes `s?<digest>rc=s` | the digest goes right after the value: `src=s?<digest>` | high (not executed) | `SrcHash.RewriteTokenAsWrittenMisplaces` | `SrcHash.RewriteTokenRef` |
| src/pr1.js:33-35 | `path.resolve(appRootPath, '.pr1.config.js')` is evaluated before the `appRootPath &&` guard, so a `null` root throws a `TypeError` | no `--config` argument and no `package.json` in or above the working directory | start the server without a configuration, as the guard intends | high (not executed) | `Cli.NoAppRootThrows` | `Cli.SelectConfig` |
