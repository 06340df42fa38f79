# vite-plugin-vue2 dev-server plugin, modelled in Dafny

This project models `src/serverPlugin.ts` of vite-plugin-vue2. That file is the
Vite dev-server plugin that serves Vue 2 single-file components (`.vue` files)
as ES modules. The model covers four parts of it:

- **The middleware** (`Dispatcher`). It decides, from the request path, the
  `ctx.vue` flag, the `type` query parameter and the parsed descriptor, which
  branch a request takes. The branches are:
  - serve the rewritten `/vite/hmr` body;
  - serve the hot-reload runtime;
  - serve the component normalizer;
  - hand the request on;
  - return without a body;
  - serve the assembled component module;
  - serve the compiled template module;
  - hand a style request on;
  - throw.
- **The `/vite/hmr` rewrite** (`HmrRewrite`). This is the global replacement
  `/__VUE_HMR_RUNTIME__\.rerender\(path, (.+)\)/g`. It is modelled as a
  backtracking matcher would run it, with greedy `.+` that stops at line
  terminators.
- **`parseSFC`** (`Assembler`, `ExportRewrite`, `StyleImports`, `HotReload`).
  It generates the component module in this order:
  - the template import, or placeholder bindings;
  - the script, with its default export rewritten to `var script =`;
  - the style imports and CSS-modules registrations;
  - the normalizer import and call, with the functional flag and the scope id;
  - the hot-reload bootstrap;
  - the default export.
- **`compileSFCTemplate`** (`TemplateModule`, `PosixPath`). It covers the
  options handed to the template compiler, including the asset base
  `path.posix.dirname(publicPath)`, and the export appended to the compiler's
  code.

Several outside functions and values are not modelled directly. Each one
becomes a field of a parameter record (`Assembler.Env`, `Dispatcher.Host`) or
the `compile` argument of `TemplateModule.CompileTemplateModule`; all of them
are functions except the body left by the next middleware, which is the
string `Dispatcher.Host.hmrBody`:
- `hash_sum`;
- the esbuild `transform`;
- `compileTemplate`;
- `parse` together with reading the file;
- `resolver.requestToFile`;
- the body left by the next middleware.

Because they are parameters, every statement holds for any deterministic
implementation of them, and for any body left by the next middleware.

Two JavaScript library behaviours are modelled concretely:
- `JSON.stringify` on strings is `JsText.JsonQuote`, and it is proved
  invertible.
- `String.prototype.trim` is `JsText.Trim`.

The regular expressions are modelled as backtracking matchers. Each matcher is
then related to a description that involves no matcher:
- the default-export rewrite replaces the *first qualifying* `export default`;
- the HMR rewrite runs from the first call on a line to the last `)` of that
  line.

Files:
- `js_text.dfy`: string helpers (trim, decimal digits, JSON quoting, lines).
- `sfc.dfy`: the descriptor.
- `export_rewrite.dfy`: `defaultExportRE` and the rewrite.
- `style_imports.dfy`: the style loop.
- `hot_reload.dfy`: the hot-reload bootstrap, as text and as its effect on the
  runtime's record table.
- `assembler.dfy`: `parseSFC`.
- `posix_path.dfy`: `path.posix.dirname`.
- `template_module.dfy`: `compileSFCTemplate`.
- `hmr_rewrite.dfy`: the `/vite/hmr` body rewrite.
- `dispatcher.dfy`: the middleware.

Three behaviours of the code are worth stating plainly, since a reader might
expect otherwise:

- **No syntax-aware fallback.** The fast-path rewrite is all there is: the
  fallback for an `export default` it leaves behind is a commented-out TODO
  (src/serverPlugin.ts:142-147). `ExportRewrite.RewriteFooledByStringLiteral`
  exhibits an input the fast path gets wrong.
- **A falsy descriptor is silent.** The middleware returns without a body and
  without calling the next middleware (src/serverPlugin.ts:82-84); the model
  returns `Silent` rather than an error.
- **Only `ts` is transpiled.** The transformer is called only for
  `lang === 'ts'` (src/serverPlugin.ts:131); every other `lang` is served as
  written.

## Model

| member | source | states |
|---|---|---|
| ExportRewrite.MatchAt | src/serverPlugin.ts:32 | trying `defaultExportRE` at one position, with its three anchors in the order written, finds a match exactly when one exists there, and reports where the phrase starts |
| ExportRewrite.Search | src/serverPlugin.ts:141 | the non-global `replace` uses the leftmost start position at which the pattern matches, and no match exists when none is found |
| ExportRewrite.MatchesAreQualifying | src/serverPlugin.ts:32 | the phrase ends a match exactly when only white space lies between it and the start of the text, a newline or a semicolon |
| ExportRewrite.RewriteReplacesFirstQualifying | src/serverPlugin.ts:141 | the rewrite replaces the first qualifying `export default` with `var script =` and keeps every other character; code without a qualifying phrase is returned unchanged |
| ExportRewrite.RewriteLeadingExport | src/serverPlugin.ts:141 | a script that opens with `export default` becomes `var script =` followed by the rest of the script |
| ExportRewrite.OnlyFirstOccurrenceRewritten | src/serverPlugin.ts:32 | the pattern is not global: a second default export after a `;` survives |
| ExportRewrite.RewriteObjectLiteral | src/serverPlugin.ts:141 | `export default { name: "X" }` becomes `var script = { name: "X" }` |
| ExportRewrite.RewriteAfterSemicolon | src/serverPlugin.ts:32 | a phrase right after a `;`, with no qualifying phrase before it, is the one rewritten |
| ExportRewrite.RewriteFooledByStringLiteral | src/serverPlugin.ts:139-148 | the fast path rewrites a phrase after a `;` inside a string literal and leaves the real export on the next line in place |
| JsText.TrimFramed | src/serverPlugin.ts:194 | `trim` removes exactly the white space around a text that begins and ends with a visible character |
| JsText.DecimalRoundTrip | src/serverPlugin.ts:156 | the decimal text interpolated for a style index reads back as that index |
| JsText.DecimalInjective | src/serverPlugin.ts:163 | distinct indices give distinct decimal texts |
| JsText.JsonQuoteRoundTrip | src/serverPlugin.ts:190 | unquoting the `JSON.stringify` text of a string gives back the string |
| StyleImports.EmitStyles | src/serverPlugin.ts:151-175 | the loop produces the style text, and sets `hasScoped` exactly when some style is scoped and `hasCSSModules` exactly when some style has `module` |
| StyleImports.ImportsInDocumentOrder | src/serverPlugin.ts:155-156 | styles are imported in document order, one import per style, with request `?type=style&index=<i>` |
| StyleImports.DeclaredAtMostOnce | src/serverPlugin.ts:158-162 | the `__cssModules` declaration appears once when some style has `module`, and never otherwise |
| StyleImports.DeclaredBeforeUse | src/serverPlugin.ts:158-170 | the declaration precedes every module import and registration |
| StyleImports.StatementsOfStyle | src/serverPlugin.ts:158-173 | style i yields a bare import exactly when it has no `module`; otherwise it yields a `&module` import and a registration under its string module name or `$style` |
| StyleImports.StyleVarsDistinct | src/serverPlugin.ts:163 | distinct styles get distinct `__style<i>` locals |
| StyleImports.LinesIgnoreScoped | src/serverPlugin.ts:155-174 | the style statements depend on `module` only: two style lists that agree on `module` emit the same statements |
| StyleImports.WholeSequence | src/serverPlugin.ts:157-161 | the loop's running flags, taken over all styles, mean "some style is scoped" and "some style has `module`" |
| HotReload.BootstrapLines | src/serverPlugin.ts:212-232 | the bootstrap is written as the eighteen lines of the source, in order, with the `isRecorded` guard nested in `compatible`, which is nested in `import.meta.hot` |
| HotReload.BootstrapEffect | src/serverPlugin.ts:216-231 | evaluating the bootstrap does nothing outside a hot context; otherwise it installs the runtime, which sets its `compatible` flag, tests the flag so set, and then either logs incompatibility or creates the record for the public path when none exists (the key the quoted literal denotes is the path itself; see Left out) |
| HotReload.RecordsIdempotent | src/serverPlugin.ts:219-220 | evaluating the bootstrap twice leaves the record table as one evaluation does |
| HotReload.BootstrapGuarded | src/serverPlugin.ts:219-220 | the only record created is for the public path, inside the guard that tests that same path |
| HotReload.NeverOverwrites | src/serverPlugin.ts:219-220 | evaluating the bootstrap never changes or removes an existing record |
| Assembler.TemplatePart | src/serverPlugin.ts:121-125 | the template part is the placeholder bindings exactly when there is no template, and it opens with a visible character |
| Assembler.ScriptPart | src/serverPlugin.ts:128 | with no script section, the binding is exactly `var script = {}` |
| Assembler.ScopeArg | src/serverPlugin.ts:190 | the scope id is `null` exactly when no style is scoped; otherwise it is a JSON string that unquotes to `hash_sum(publicPath)` |
| Assembler.ModuleText | src/serverPlugin.ts:194-234 | the module always ends with `\nexport default component.exports` |
| Assembler.TrimmedLayout | src/serverPlugin.ts:177-194 | `trim` removes only the newline that opens the template literal and the indentation that closes it |
| Assembler.ModuleLayout | src/serverPlugin.ts:177-234 | the module is the template part, the script part, the styles, the normalizer call, the hot-reload bootstrap and the export, in that order |
| Assembler.TemplateOpensModule | src/serverPlugin.ts:122-125 | the module opens with the template line, which starts with `v` exactly when there is no template |
| Assembler.ScriptBinding | src/serverPlugin.ts:128-149 | with a script, the script part is its source with the first qualifying default export rewritten, or the unchanged source when there is none |
| Assembler.PlainScriptBound | src/serverPlugin.ts:141 | a plain `export default <rest>` script is bound as `var script =<rest>` |
| Assembler.TranspilerOnlyForTs | src/serverPlugin.ts:131-137 | the transformer is consulted only for `lang === 'ts'`: otherwise the module does not depend on it |
| Assembler.ScopedOnlyChangesScopeId | src/serverPlugin.ts:151-190 | `scoped` influences only the scope id: components that agree on template, script and every style's `module` emit the same style statements, and the same module whenever their scope-id arguments agree |
| Assembler.ScopeIdPerPath | src/serverPlugin.ts:119 | the scope id depends on the public path alone |
| Assembler.FunctionalFlagsAgree | src/serverPlugin.ts:117-118 | the assembled module passes one flag, `true` exactly when the template is functional, both as the normalizer's functional argument and to the bootstrap that picks `rerender` or `reload` |
| PosixPath.DirnameMeaning | src/serverPlugin.ts:252 | dirname is `.` for the empty path, the root when there is no cut, and otherwise the text before the rightmost slash that has a non-slash character after it |
| PosixPath.DirnameOfNestedFile | src/serverPlugin.ts:252 | the asset base of `/<dir>/<file>` is `/<dir>` |
| PosixPath.DirnameIgnoresTrailingSlash | src/serverPlugin.ts:252 | a trailing slash does not change the dirname |
| TemplateModule.CompileTemplateModule | src/serverPlugin.ts:268 | the template module is exactly the compiler's code followed by `\nexport { render, staticRenderFns }` |
| TemplateModule.DiagnosticsNotServed | src/serverPlugin.ts:260-266 | tips and errors are never part of the served module |
| TemplateModule.FunctionalAgreesWithComponent | src/serverPlugin.ts:255 | the compiler is told the template is functional exactly when the component module passes `true` |
| TemplateModule.AssetBaseIsDirectory | src/serverPlugin.ts:251-253 | assets of `/<dir>/<file>` resolve against `/<dir>`, and those of a file at the root against `/` |
| HmrRewrite.MatchLength | src/serverPlugin.ts:49 | a match at a position runs to the last `)` on the line, with at least one character after `path, `; there is no match when no such `)` exists |
| HmrRewrite.MatchStopsAtTerminator | src/serverPlugin.ts:49 | `.+` never crosses a line terminator |
| HmrRewrite.RewriteLineByLine | src/serverPlugin.ts:48-51 | the body is rewritten line by line |
| HmrRewrite.RewriteOneLine | src/serverPlugin.ts:48-51 | within a line, the text from the first call that has a match to the last `)` becomes `__VUE_HMR_RUNTIME__.rerender(path, m)`, and the rest of the line is kept |
| HmrRewrite.RewriteWithoutCall | src/serverPlugin.ts:48-51 | a body without the call is left unchanged |
| HmrRewrite.RewriteSingleCall | src/serverPlugin.ts:48-51 | a call with any one-line argument becomes the call with `m` |
| Dispatcher.Handle | src/serverPlugin.ts:44-104 | a body is served exactly on the fixed paths, on a full request and on a template request with a template; the next middleware is awaited before serving exactly for `/vite/hmr` and for a full request |
| Dispatcher.FixedPathsDistinct | src/serverPlugin.ts:34-45 | the three fixed paths are distinct, and none of them ends in `.vue` |
| Dispatcher.ClassifyMeaning | src/serverPlugin.ts:45-103 | the tests, taken in order, select exactly the branch whose condition holds |
| Dispatcher.ConditionsPartition | src/serverPlugin.ts:45-103 | exactly one branch applies to every request |
| Dispatcher.FixedPathsFirst | src/serverPlugin.ts:45-64 | the fixed paths are answered before any other test, whatever the flag, the query or the file |
| Dispatcher.OthersHandedOn | src/serverPlugin.ts:66-68 | a path that neither ends in `.vue` nor is flagged by `ctx.vue` is handed on |
| Dispatcher.ParseOnlyForComponents | src/serverPlugin.ts:66-81 | for any request that is not a component, the parse result has no influence on the response |
| Dispatcher.FalsyDescriptorSilent | src/serverPlugin.ts:82-84 | a falsy descriptor gives no body, whatever the query |
| Dispatcher.FullModuleServed | src/serverPlugin.ts:85-91 | with no `type`, the next middleware is awaited and the assembled module is served |
| Dispatcher.TemplateModuleServed | src/serverPlugin.ts:93-99 | `type=template` serves, without awaiting the next middleware, exactly the compiled template module of the component's template block, its file path and public path, or throws when the component has no template |
| Dispatcher.OtherTypes | src/serverPlugin.ts:101-103 | `type=style` is handed on, and any other `type` gives no body |

## Left out

- Koa plumbing is not modelled: setting `ctx.type`, and the order in which `await next()` runs relative to other middleware. A response records only whether the next middleware was awaited before the body was set.
- `ctx.body` on `/vite/hmr` is taken to be a string. The model does not cover a stream or buffer body, on which `replace` would throw.
- `ctx.query.type` is modelled as absent or one string. An array-valued `type` (a repeated parameter) is not modelled.
- `readFile`, `resolver.requestToFile` and `parse` are folded into one function from the public path to an optional descriptor. I/O errors, which would throw, are not modelled.
- `vueCache` (src/serverPlugin.ts:28-30) is declared but never used, so it has no behaviour to model.
- The logging of the compiler's tips and errors (src/serverPlugin.ts:260-266) is a side effect. Only the fact that the diagnostics never reach the body is stated.
- The texts of the hot-reload runtime (`vueHotReloadCode`) and of the component normalizer (`normalizeComponentCode`) live in files that are not part of this model. They are opaque strings of `Dispatcher.Host`.
- The hot-reload runtime is modelled only through what the bootstrap asks of it: `install`, `compatible`, `isRecorded` and `createRecord`. How `install(vue)` decides compatibility (the runtime's check of the Vue build) is in a file that is not part of this model; its verdict is the field `vueCompatible` of `HotReload.Runtime`, which `install` copies into `compatible`.
- Asynchrony and concurrent requests are not modelled: every operation is a function.
- The `root` and `filePath` parameters of `parseSFC` are never read by it, so `Assembler.AssembleModule` does not take them.
- The commented-out code is not modelled as behaviour: the full-parse fallback, `__file`, custom blocks and `acceptDeps`. The commented `acceptDeps` lines are still emitted text, and they are modelled as text.
- `compileTemplate`'s options `compiler` and `transformAssetUrlsOptions` are reduced to what is data here: the asset base and the flags.
- `HotReload.BootstrapEffect` (and `HotReload.RecordEffect`, `HotReload.RecordsIdempotent`, `HotReload.BootstrapGuarded`, `HotReload.NeverOverwrites`): the statements take the key of `isRecorded` and `createRecord` to be the public path itself. The generator interpolates the path between single quotes without escaping (src/serverPlugin.ts:219-220), so this holds only for a path with no `'`, no `\` and no line terminator. A path with a `'` can make the module a syntax error, and a `\` changes the key the runtime sees; JavaScript's string-literal syntax is not modelled.
- `StyleImports.EmitStyles`: the `hasScoped` flag is initially `undefined` in the source (src/serverPlugin.ts:152). The model uses `false`, which is equivalent in the only test of the flag.
