# svg-to-font webpack plugin: a verified model of its core

The plugin turns a folder of SVG icons into an icon font. It writes six
files into `dist`:

- the font as SVG, TTF, EOT and WOFF;
- a stylesheet with one `:before` rule per icon;
- an HTML preview page.

The project models the logic the plugin itself contributes around the
foreign font converters. It is split by module:

- `util.dfy` models util.js:
  - the process-wide code point allocator (`startUnicode`, `unicodeObj`,
    `getIconUnicode`), as the class `UnicodeRegistry` over a value model
    `Registry`;
  - `filterSvgFiles`, as a method with a loop proved against the function
    `SvgFiles`;
  - the glyph naming and feed order of `createSVG`, as the method
    `FeedGlyphs` proved against `WriteGlyphs`;
  - the output paths of the four font stages.
- `plugin.dfy` models index.js:
  - the constructor's `_.extend` of the option defaults;
  - the CSS rule text;
  - the two lists `cssString` and `cssIconHtml`, which `apply` keeps
    across hook runs, in the class `EmitHook`;
  - one run of the `run` hook as a fail-fast chain of six stages:
    svg, ttf, eot, woff, css, html.

  `EmitHook.Run` is proved equal to the pure specification `Hook`. The
  lemmas about the hook are stated on `Hook`.
- `node_path.dfy` models Node's `path.extname`, `path.join` and
  `path.basename` on POSIX paths.
- `css_hex.dfy` models two things:
  - `Number#toString(16)` with its inverse;
  - the consumption of a CSS escape (section 4.3.7 of CSS Syntax Module
    Level 3). A stylesheet reader applies it to the `\<hex>` that each rule
    carries.
- `base.dfy` holds `Option`/`Result` and small sequence predicates.

The world outside the core is a parameter, `HookEnv`. It holds:

- the directory listing;
- the size or error of each converter and of each file write;
- the rendered templates;
- the timestamp.

`Hook` returns a `HookRun` record with:

- the new state;
- the stages entered;
- the glyphs fed to the font stream;
- the reports printed;
- the template renders asked for;
- the files written, which are the stylesheet and the page (the four font
  files appear only as reports);
- how the promise settled.

The documented meaning of `unicodeStart`, of an empty folder and of
repeated runs differs from what the code does; the model follows the code:

- The first code point of a process is always U+EA01. `options.unicodeStart`
  is assigned to an unrelated global at util.js:47 and never reaches the
  counter (`UnicodeStartIgnored`).
  - For `home.svg` and `search.svg` with `unicodeStart` 60001, the rules
    therefore carry `\ea01` and `\ea02`, not `\ea61` and `\ea62`
    (`TwoIconExample`).
- The counter is never reset. A second hook run in the same process
  continues where the first stopped (`SecondRunContinues`).
- An empty folder is not an error. The empty array is truthy, so the build
  goes on with no glyphs (`EmptyFolderStillBuilds`). Only a falsy listing
  raises "Error! Svg folder is empty.".
- The duplicate guard of `filterSvgFiles` compares a bare entry name with
  folder-joined paths. When the folder path is not the empty string and the
  entries contain no separator, as a directory listing's entries do, it
  never drops anything (`SvgFilesAreSvgNames`).

## Model

| member | source | states |
|---|---|---|
| NodePath.LastIndexOf | util.js:36 | the result is the position of the last occurrence of the character, or -1 exactly when there is none |
| NodePath.Segment | util.js:55 | the last path segment contains no separator, ends the path, is preceded by a separator when it is shorter than the path, and is the whole path when the path has no separator |
| NodePath.ExtName | util.js:36 | definition: `path.extname`, the text from the last '.' of the last segment, or "" when that dot is the segment's first character, when there is none, or for ".." |
| NodePath.Join | util.js:38 | definition: `path.join(dir, name)`, the two parts with one separator between them; an empty part is dropped |
| NodePath.BaseName | util.js:55 | definition: `path.basename(p, ext)`, the last segment with `ext` removed when it ends the segment and is shorter than it |
| NodePath.ExtNameIsSvg | util.js:36 | for a directory entry, `path.extname` is ".svg" if and only if the name ends in ".svg" and is longer than it |
| NodePath.UpperCaseSvgRejected | util.js:36 | "X.SVG" does not have the extension ".svg" |
| NodePath.BackupSvgRejected | util.js:36 | "a.svg.bak" does not have the extension ".svg" |
| NodePath.DotFileSvgRejected | util.js:36 | the dot file ".svg" has no extension at all |
| NodePath.DoubleDotSvgAccepted | util.js:36 | "..svg" does have the extension ".svg" |
| NodePath.SegmentOfJoin | util.js:38 | joining a folder and an entry name gives a path whose last segment is that name |
| NodePath.BaseNameOfJoin | util.js:55 | `path.basename(join(dir, name), '.svg')` is the name with its ".svg" removed |
| NodePath.JoinKeepsDir | util.js:38 | a joined path starts with the folder and contains a separator |
| CssHex.ToHex | index.js:77 | `toString(16)` gives at least one lower-case hex digit, with a leading '0' only for zero |
| CssHex.HexRoundTrip | index.js:77 | parsing the hex text of a number gives the number back |
| CssHex.HexOfCodeUnitIsShort | index.js:77 | a code unit has one to four hex digits |
| CssHex.DigitChar | index.js:77 | each digit value below 16 maps to a lower-case hex digit that reads back as that value |
| CssHex.HexRunLength | index.js:77 | the hex digit run at the start of a string is at most the cap, all hex digits, and stops at a non-digit or the cap |
| CssHex.HexRunStopsAt | index.js:77 | a run of at most six hex digits followed by a non-digit is read in full and no further |
| CssHex.EscapeOfCodeUnit | index.js:77 | a CSS reader consumes the escape `\<hex>` of a code unit and yields that code, or U+FFFD for 0 and surrogates; it stops before the closing quote |
| Util.FromCharCode | util.js:20 | `String.fromCharCode` keeps the number modulo 2^16 and leaves numbers below 2^16 as they are |
| Util.Allocate | util.js:19-23 | the current counter, truncated to 16 bits, is stored under the name and returned, and the counter grows by one. Every other key and code is unchanged, and a repeated name keeps its place in key order. Key order stays duplicate-free and only grows |
| Util.UnicodeRegistry.constructor | util.js:10-13 | the module state starts with the counter at 0xEA01 and an empty `unicodeObj` |
| Util.UnicodeRegistry.GetIconUnicode | util.js:19-23 | updates the state in place exactly as `Allocate` does and returns the one-element array of the new code |
| Util.WriteGlyphs | util.js:76-79 | feeding n paths gives n glyphs and advances the counter by exactly n |
| Util.GlyphAt | util.js:53-59 | glyph i is named by the basename of path i without ".svg" and carries the code of the counter's i-th step |
| Util.WriteGlyphsGlyphs | util.js:53-79 | every glyph of a feed is named after its path and carries the counter's value at its position |
| Util.WriteGlyphsKeepsRegistry | util.js:21 | a feed keeps the key order duplicate-free and in step with the map, only appends keys, and loses none |
| Util.FedNameRegistered | util.js:21 | every fed name is a key of `unicodeObj` afterwards |
| Util.FeedGlyphs | util.js:76-79 | the loop over the filtered paths changes the shared state and yields the glyphs exactly as `WriteGlyphs` specifies |
| Util.IsSvgEntry | util.js:36 | definition: an entry is kept when it is a string whose `path.extname` is ".svg" |
| Util.SvgFiles | util.js:35-39 | definition: the loop's `svgArr` after a listing, each kept entry joined onto the folder unless the bare entry is already in the array |
| Util.EmptyFolderMessage | util.js:32 | definition: "Error! Svg folder is empty." followed by the folder path |
| Util.GlyphName | util.js:55 | definition: a glyph's name is `path.basename(svgPath, '.svg')` |
| Util.FilterSvgFiles | util.js:28-42 | an unreadable folder rejects with the read error and a falsy listing with "Error! Svg folder is empty." plus the folder; otherwise the result is `SvgFiles` of the listing, even for an empty listing |
| Util.SvgNames | util.js:36 | every kept entry name ends in ".svg" and is longer than it |
| Util.JoinAll | util.js:38 | path i is entry i joined onto the folder |
| Util.SvgFilesAreSvgNames | util.js:35-39 | for a folder path other than "" and separator-free entries, the filter keeps exactly the string entries whose extension is ".svg", in listing order, each joined onto the folder; the duplicate guard never fires |
| Util.SvgFilesSnoc | util.js:35-39 | one more entry is appended, joined, exactly when it is a string with extension ".svg" that the guard does not find |
| Util.SvgFilesStep | util.js:35-39 | the same single loop iteration, stated at index i of the listing |
| Util.SvgFileOfStem | util.js:55 | "stem.svg" passes the extension test, and its glyph name under any folder is the stem |
| Util.OneSvgFile | util.js:35-39 | a listing of one "a.svg" gives the one joined path |
| Util.TwoSvgFiles | util.js:35-39 | a listing of "a.svg" and "b.svg" gives both joined paths, in order |
| Util.JoinAllSnoc | util.js:38 | joining one more name appends its joined path |
| Util.FreshRegistryStartsAtEA01 | util.js:13 | the first two glyphs of a process get U+EA01 and U+EA02 |
| Util.CodesDistinctInWindow | util.js:20 | counter values fewer than 65536 apart give different code units |
| Util.CodesRepeatAfterWrap | util.js:20 | counter values 65536 apart give the same code unit |
| Util.GlyphCodesIncrease | util.js:20 | within one feed, a later glyph's code is larger while the counter is below 2^16, and differs within any window of 65536 |
| Util.PrivateUseWindow | util.js:11-13 | before the wrap, allocation k is in the Private Use Area (up to U+F8FF) if and only if k < 3839 |
| Util.FirstWrapIsZero | util.js:20 | allocation 5631 of a process wraps to code 0 and allocation 5632 to code 1 |
| Util.LastFeedWins | util.js:21 | a name's stored code is the one from its last allocation |
| Util.UnfedNamesUnchanged | util.js:21 | a name not fed keeps its presence and its code |
| Util.FontReport | util.js:61-147 | definition: a font stage's result, path `dist` joined with font name plus extension, file name font name plus extension, and the file's size |
| Util.FontPathsDistinct | util.js:61-147 | each font file is `dist` joined with the font name plus its extension; the four paths differ and end in the reported file names |
| Plugin.ExtendLaws | index.js:18-35 | `_.extend` with no caller keys keeps the defaults and applying the same caller object again changes nothing; a key the caller gives, even an explicit `undefined`, wins whatever the default, and an absent one keeps it |
| Plugin.PrefixFallback | index.js:97 | a prefix is falsy exactly when it is not a non-empty string, and then the stylesheet template gets the font name; the template and the rules see the same prefix exactly when it is truthy or its text equals the font name |
| Plugin.UndefinedPrefixRules | index.js:77 | a caller's explicit `clssaNamePrefix: undefined` replaces "icon": every rule starts `.undefined-` while the stylesheet template gets "iconfont" |
| Plugin.Defaults | index.js:18-35 | definition: the default options object, with `src`, `dist` and the template paths under the plugin's own folder |
| Plugin.Extend | index.js:18-35 | definition: `_.extend(defaults, options)`, each key the caller gives replacing the default's whole value |
| Plugin.Falsy | index.js:97 | definition: the values JavaScript's `or` operator treats as false: "", `undefined`, `null`, `false` and 0 |
| Plugin.Text | index.js:77 | definition: a prefix value as a template literal spells it ("undefined", "null", "false", "0", or the string) |
| Plugin.RulePrefix | index.js:77 | definition: the prefix the rules carry, `${options.clssaNamePrefix}` |
| Plugin.CssTemplatePrefix | index.js:97 | definition: `options.clssaNamePrefix` when it is truthy, otherwise `options.fontName` |
| Plugin.OptionDefaults | index.js:18-35 | without caller keys the options are the documented defaults; a caller's `template` replaces the whole default object, not one path of it |
| Plugin.ExampleOptions | index.js:18-35 | a caller giving only `unicodeStart` 60001 keeps the default prefix "icon" and a non-empty `src` |
| Plugin.CssRule | index.js:77 | definition: `.<prefix>-<name>:before { content: "\<hex>"; }` and a newline, `<hex>` being `ToHex` of the code |
| Plugin.RuleCode | index.js:77 | definition: the reading side, the hex digits after a rule's last backslash and before its closing `"; }` |
| Plugin.RuleCodeRoundTrip | index.js:77 | the code is read back from any rule exactly, whatever the prefix and name |
| Plugin.RuleEscapeReadsCode | index.js:77 | a CSS reader consumes the rule's escape to the code (or U+FFFD for 0 and surrogates) and stops at the closing quote |
| Plugin.ExampleRuleText | index.js:77 | a rule for prefix "icon" is `.icon-<name>:before { content: "\<hex>"; }` with a newline |
| Plugin.HexExamples | index.js:77 | 0xEA01 and 0xEA02 are written "ea01" and "ea02" |
| Plugin.Rules | index.js:74-78 | the loop emits one rule per key |
| Plugin.RuleAt | index.js:74-78 | rule i is the rule for key i with that key's code |
| Plugin.RulesSnoc | index.js:74-78 | one more key appends its rule and nothing else |
| Plugin.AppendKeepsLockstep | index.js:74-78 | appending the rules and the keys together keeps the lists of equal length, with entry i of `cssString` the rule for entry i of `cssIconHtml` |
| Plugin.EmitHook.constructor | index.js:63-65 | the lists start empty and in step |
| Plugin.EmitHook.AppendIconRules | index.js:74-78 | the `forEach` appends the keys to `cssIconHtml` and their rules, in key order, to `cssString` |
| Plugin.EmitHook.Run | index.js:69-131 | one hook run changes the shared state and the lists exactly as `Hook` specifies and keeps both invariants |
| Plugin.SvgToFontPlugin.constructor | index.js:16-36 | the options are the defaults merged with the caller's object by `_.extend` |
| Plugin.SvgToFontPlugin.Apply | index.js:62-69 | `apply` gives the hook fresh, empty lists over the shared module state |
| Plugin.ListSvgFiles | util.js:76 | definition: `filterSvgFiles(options.src)` on the run's listing, as a result: the kept paths, the empty-folder error, or the read error |
| Plugin.FontStep | index.js:80-88 | definition: the ttf, eot and woff stages, the converter's error rejecting the run, its success adding the stage's report |
| Plugin.CssRequest | index.js:91-99 | definition: the stylesheet render call, with template path `options.template.css` and data font name, joined rules, timestamp and the falling-back prefix |
| Plugin.HtmlRequest | index.js:111-120 | definition: the page render call, with template path `options.template.html` and data prefix as given, font name, stylesheet file name as link, icon names and font name as title |
| Plugin.CssStep | index.js:89-109 | definition: the css stage, which asks for the render, rejects on a render error, prints the report of `dist` joined with `fileName`, then rejects on a write error or records the written file |
| Plugin.HtmlStep | index.js:110-130 | definition: the html stage, shaped like the css stage with `htmlFileName` |
| Plugin.SvgStep | index.js:71-79 | the svg stage keeps the module state valid |
| Plugin.Step | index.js:71-130 | every stage keeps the module state valid |
| Plugin.StepOf | index.js:71-130 | the stage callbacks keep the module state valid for any run |
| Plugin.StepSettles | index.js:71-130 | a stage entered after success rejects exactly when its own step fails, with that step's error |
| Plugin.StepOfSettles | index.js:71-130 | all stage callbacks settle that way |
| Plugin.EnteredInOrder | index.js:71-130 | the stages a fail-fast chain enters are consecutive in the fixed order, and are all remaining stages when none fails |
| Plugin.AdvanceRan | index.js:71-130 | from any stage on, the chain enters exactly the stages up to and including the first that fails |
| Plugin.AdvanceResolves | index.js:71-130 | from any stage on, the chain resolves exactly when no later stage fails |
| Plugin.AdvanceRejects | index.js:71-130 | a rejection always carries the error of the last stage entered, which failed |
| Plugin.AdvanceFailFast | index.js:71-130 | a chain of callbacks that settle like the stages enters a non-empty prefix of svg, ttf, eot, woff, css, html, stopping at the first failure; it resolves exactly when nothing fails and otherwise rejects with the error of the failed stage |
| Plugin.StageFails | index.js:71-130 | definition: whether a stage's own outside step fails: the listing or the font write for svg, the converter for ttf, eot and woff, the render or the write for css and html |
| Plugin.FailureReason | index.js:71-130 | definition: the error a failing stage rejects with |
| Plugin.StageFileName | index.js:71-130 | definition: the file name each stage reports |
| Plugin.Entered | index.js:71-130 | definition: the reference list of stages a fail-fast chain enters from stage k, up to and including the first that fails |
| Plugin.Advance | index.js:71-130 | definition: the promise chain from stage k on, each stage entered only while the run is still resolved |
| Plugin.Hook | index.js:69-131 | definition: one run of the `run` hook, the chain of all six stages from a fresh run over the current state |
| Plugin.HookFailFast | index.js:71-130 | one hook run enters the stages in the order svg, ttf, eot, woff, css, html. A failing stage stops every later stage and its error rejects the promise. The run resolves, with all six stages entered, exactly when no stage fails |
| Plugin.StepAddsReport | index.js:71-130 | each stage prints at most one report, naming its own file and that file's path under `dist`; a stage that resolves has printed it |
| Plugin.StepReports | index.js:71-130 | one more stage keeps the reports matched to the entered stages |
| Plugin.AdvanceReports | index.js:71-130 | reports stay matched to the entered stages from any stage on |
| Plugin.HookReports | index.js:71-130 | report i names the file of stage i, and its path is `dist` joined with that file name. Only the last stage entered may lack a report, and a resolved run printed all six |
| Plugin.SvgRunFeeds | index.js:71 | the svg stage feeds exactly the filtered paths in order; a listing error feeds nothing and leaves the state alone |
| Plugin.SvgRunLists | index.js:72-79 | after a successful svg stage the lists gained the keys of `unicodeObj` and their rules; after a failed one they are unchanged |
| Plugin.HookFeedsListing | index.js:71-79 | when listing and font stream succeed, the run's glyphs and new state are those of feeding the filtered paths and appending the keys and rules |
| Plugin.SvgStepCases | index.js:71-79 | the svg stage's three outcomes: a listing error rejects with nothing fed; an error of the font file's write stream rejects after feeding; success appends the lists and prints the svg report. A failed svg stage is the whole run |
| Plugin.StepKeepsState | index.js:80-130 | the stages after svg change neither the module state, the lists nor the glyphs |
| Plugin.AdvanceKeepsState | index.js:80-130 | the same for the chain after the svg stage |
| Plugin.HookStateIsSvgStage | index.js:71-130 | the state and glyphs after a run are those after its svg stage |
| Plugin.HookOnlyAppends | index.js:64-78 | a run only appends to both lists, the key order and the counter, and grows both lists by the same amount |
| Plugin.SvgRunOnlyAppends | index.js:64-78 | the same for the svg stage alone |
| Plugin.HookAppendsOneRulePerKey | index.js:74-78 | the lists stay in step across runs: a successful svg stage appends exactly the keys of `unicodeObj` and one rule per key, and a failed one appends nothing |
| Plugin.HookGlyphs | util.js:76-79 | a run feeds one glyph per ".svg" entry of the listing, in listing order. Each glyph is named by its stem and carries the next counter value |
| Plugin.SvgNameIsEntry | util.js:35-39 | a kept name is, as a string entry, one of the listing's entries, and contains no separator when the entries contain none |
| Plugin.AdvanceIgnoresStart | util.js:47 | `unicodeStart` does not affect any stage of the chain |
| Plugin.UnicodeStartIgnored | util.js:47 | a run with any `unicodeStart` is identical to one with any other |
| Plugin.HookCounter | util.js:19-23 | the counter advances by the number of glyphs, one per filtered path, and glyph i carries counter plus i |
| Plugin.SecondRunContinues | util.js:10-23 | a second run in the same process allocates from where the first run stopped |
| Plugin.EmptyFolderStillBuilds | util.js:29-33 | an empty listing feeds nothing, leaves the module state alone, and fails the svg stage only if the font stream fails |
| Plugin.StepRequests | index.js:89-121 | each later stage asks for its own template render from the current lists |
| Plugin.AdvanceRequests | index.js:89-121 | renders are asked for exactly by the css and html stages entered |
| Plugin.TemplateData | index.js:89-121 | the css template gets the font name, the joined rules, the timestamp and the prefix, falling back to the font name when the prefix is falsy ("", `undefined`, `null`, `false` or 0). The html template gets the prefix with no fallback, the font name, the stylesheet name, the icon names and the title. Each render is asked for exactly when its stage is entered |
| Plugin.CssOutput | index.js:101-109 | definition: the stylesheet written to `dist` joined with `fileName` with the rendered text, present only when the render and the write succeed |
| Plugin.HtmlOutput | index.js:122-130 | definition: the page written to `dist` joined with `htmlFileName` with the rendered text, present only when the render and the write succeed |
| Plugin.Outputs | index.js:89-130 | definition: the files the entered css and html stages write, stylesheet first |
| Plugin.StepWrites | index.js:89-130 | a later stage writes at most its own file, after the files written before it |
| Plugin.AdvanceWrites | index.js:89-130 | from any stage on, the files written are those of the css and html stages entered whose render and write succeed |
| Plugin.OutputsOfAllStages | index.js:101-130 | once every stage is entered and neither the css nor the html stage fails, the files written are exactly the stylesheet and then the page |
| Plugin.SvgRunWrites | index.js:71-88 | the svg stage writes none of the stylesheet or page files and enters only itself |
| Plugin.HookWrites | index.js:89-130 | the files a hook run writes are the stylesheet and the page of the stages it entered whose render and write succeed, each at `dist` joined with its file name and holding the rendered text; a resolved run wrote both, stylesheet first |
| Plugin.HookWritesOutputs | index.js:101-130 | when the listing, the font stream, the three converters, both renders and both writes succeed, the run resolves having written `dist/fileName` with the stylesheet and `dist/htmlFileName` with the page, in that order |
| Plugin.FailedWriteStillReports | index.js:101-130 | a failed write of the stylesheet or the page still prints that file's report with its path, name and size, rejects with the write error and records no written file |
| Plugin.ExampleFeed | util.js:19-23 | feeding "home" and "search" to a fresh registry stores and returns U+EA01 and U+EA02 |
| Plugin.ExampleFileNames | util.js:36 | "home.svg" and "search.svg" are separator-free stems followed by ".svg" |
| Plugin.ExampleListing | util.js:35-39 | a listing of "home.svg" and "search.svg" keeps both, joined onto the folder |
| Plugin.ExampleNames | util.js:55 | their glyph names are "home" and "search" |
| Plugin.ExampleRules | index.js:74-78 | the rules for the two-icon feed, in key order |
| Plugin.ExampleTwoIconFeed | util.js:53-79 | feeding the two joined paths to a fresh registry yields U+EA01 and U+EA02 under "home" and "search" |
| Plugin.ExampleTwoIconLists | index.js:74-78 | the lists appended for that registry are the two names and their two rules |
| Plugin.TwoIconGlyphs | util.js:46-79 | a first run over "home.svg" and "search.svg" feeds glyphs "home" U+EA01 and "search" U+EA02 |
| Plugin.TwoIconLists | index.js:72-79 | that run leaves `cssIconHtml` as ["home", "search"] and `cssString` as their two rules |
| Plugin.TwoIconExample | index.js:71-79 | with `unicodeStart` 60001 the two icons still get U+EA01 and U+EA02, and the "icon" rules carry those codes |

## Left out

- File-system I/O is not modelled. This covers `readdirSync`, the read and
  write streams, `writeFile`, `readFileSync` for sizes, `outputFileSync` and
  `emptyDirSync`. The listing and each outcome are inputs in `HookEnv`, and
  written files are values in the run record.
- The font converters are opaque outcomes. This covers the
  `svgicons2svgfont` stream, `svg2ttf`, `ttf2eot` and `ttf2woff`, the binary
  formats, and the `this.ttf` buffer shared between stages. So are the
  `svgicons2svgfont` and `svg2ttf` option bags, including the
  `options.svg2ttf || {}` defaulting of util.js:91, which only feeds
  `svg2ttf`.
- EJS rendering is an input. The model records the path and data each
  render is asked for, and the rendered string.
- CssStep, HtmlStep: the reported size of the stylesheet and the page is
  the rendered string's length in Unicode scalar values, as Dafny counts a
  `string`. `buildTemplateFile` reports `str.length` (util.js:158), which
  counts UTF-16 code units. The two differ by one for each character
  outside the Basic Multilingual Plane, such as an icon named "😀".
- `formatSize` is left out because it is floating-point arithmetic
  (`Math.log`, `toPrecision`). `printResult` and its colouring are left out
  as console output; the reports are kept as records of path, file name
  and size.
- The webpack wiring (`compiler.hooks.run.tapPromise`) is left out. So are
  asynchrony and interleaving of the promise chain, apart from its
  fail-fast order. Concurrent hook runs sharing the module state are also
  left out.
- `Object.keys` enumerates array-index-like keys such as "1" before the
  others. The model enumerates keys in insertion order, so it assumes icon
  names that are not array indices.
- Special object keys such as `__proto__` are not modelled. `unicodeObj` is
  a map.
- `path.resolve` is modelled as `path.join`. This covers the defaults of
  `src`, `dist` and the templates, and the CSS and HTML output paths. The
  model does not make paths absolute against the working directory.
- `path.join` and `path.basename` are modelled without normalisation of
  ".", ".." or repeated separators, and without trailing separators.
  Directory entries contain no separator.
- Windows paths are left out; only POSIX separators are modelled.
- The `typeof svg !== 'string'` test inside the `forEach` callback of
  util.js:77 is not modelled. It is applied to each element of
  `filterSvgFiles`' result, which is always a string, so it never skips one.
- SvgStep, SvgStepCases: only an error of the write stream that receives
  the SVG font rejects the svg stage. Errors emitted by the
  `svgicons2svgfont` transform, and errors reading a glyph file (such as an
  SVG that cannot be parsed, or a directory named `x.svg`, which the filter
  keeps), have no listener in the source (util.js:56-58, 63-75). They end as
  an uncaught exception with the hook's promise never settled. The model
  does not cover that outcome.
- CssTemplatePrefix, Extend: only `clssaNamePrefix` is modelled as a
  JavaScript value: a string, `undefined`, `null`, `false` or 0. Other
  falsy or non-string values, such as NaN, numbers other than 0 or objects,
  are not modelled. The other options are modelled as string, number or
  record values only, and explicit `undefined` for them is not modelled.
