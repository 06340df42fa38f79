/**
 * `parseSFC`: the ES module served for a `.vue` request without a `type`
 * query. It binds the template's render functions (or placeholders), binds
 * the script's default export to `script`, imports the styles, calls the
 * component normalizer, appends the hot-reload bootstrap and exports the
 * component.
 *
 * `hash_sum` and the TypeScript transform are functions of the environment;
 * `JSON.stringify` is JsText.JsonQuote.
 */
module Assembler {
  import opened JsText
  import opened Sfc
  import ExportRewrite
  import StyleImports
  import HotReload

  /** The foreign functions the generator calls: `hash_sum`, and the esbuild
      `transform` with the `ts` loader (source, public path) -> code. */
  datatype Env = Env(hashSum: string -> string, transformTs: (string, string) -> string)

  /** The dev-server path the component normalizer is served from. */
  const NormalizerPath: string := "/vite/vueComponentNormalizer"

  const TemplatePlaceholder: string := "var render, staticRenderFns"
  const EmptyScript: string := "var script = {}"
  const ExportLine: string := "\nexport default component.exports"

  /** The template part: the render functions of the `?type=template`
      request, or placeholder bindings when there is no template. */
  function TemplatePart(d: Descriptor, publicPath: string): (r: string)
    ensures r == TemplatePlaceholder <==> d.template.None?
    ensures |r| > 0 && (r[0] == 'v' <==> d.template.None?) && !IsWhitespace(r[0])
  {
    if d.template.Some? then
      "import { render, staticRenderFns } from \"" + publicPath + "?type=template\""
    else TemplatePlaceholder
  }

  /** The source text the rewrite is applied to: the transpiled code for
      `lang="ts"`, the raw content for every other lang. */
  function ScriptSource(env: Env, b: ScriptBlock, publicPath: string): string {
    if b.lang == Some("ts") then env.transformTs(b.content, publicPath) else b.content
  }

  /** The script part: the script with its default export bound to `script`,
      or an empty options object when there is no script. */
  function ScriptPart(env: Env, d: Descriptor, publicPath: string): (r: string)
    ensures d.script.None? ==> r == EmptyScript
  {
    if d.script.Some? then ExportRewrite.RewriteDefaultExport(ScriptSource(env, d.script.value, publicPath))
    else EmptyScript
  }

  /** The `functional` argument of the normalizer. */
  function FunctionalArg(d: Descriptor): (r: string)
    ensures r == "true" || r == "false"
  {
    if HasFunctional(d) then "true" else "false"
  }

  /** The scope-id argument of the normalizer: the quoted hash of the public
      path when some style is scoped, `null` otherwise. */
  function ScopeArg(env: Env, d: Descriptor, publicPath: string): (r: string)
    ensures r == "null" <==> !AnyScoped(d.styles)
    ensures r != "null" ==> |r| >= 2 && JsonUnquote(r) == env.hashSum(publicPath)
  {
    if AnyScoped(d.styles) then
      var q := JsonQuote(env.hashSum(publicPath));
      JsonQuoteRoundTrip(env.hashSum(publicPath));
      assert q[0] == '"' && "null"[0] == 'n';
      q
    else "null"
  }

  /** The normalizer import and call around its two computed arguments.
      The arguments are, one per line: the script's options, the two render
      bindings, the functional flag, `injectStyles`, the scope id,
      `moduleIdentifier` and `shadowMode`. Each line is preceded by a
      newline. */
  const CallOpening: string :=
    "\n/* normalize component */\nimport normalizer from \"/vite/vueComponentNormalizer\""
    + "\nvar component = normalizer(\n  script,\n  render,\n  staticRenderFns,\n  "
  const CallMiddle: string := ",\n  null,\n  "
  const CallClosing: string := ",\n  null,\n  null\n)"

  /** The normalizer import and call; the text ends with the closing
      parenthesis. */
  function NormalizerCall(functional: string, scope: string): (r: string)
    ensures |r| > 0 && r[|r| - 1] == ')'
  {
    CallOpening + functional + CallMiddle + scope + CallClosing
  }

  /** The four parts of the first template literal, one per line (the
      normalizer call brings its own newline). */
  function Parts(template: string, script: string, styles: string, normalizer: string): string {
    template + "\n" + script + "\n" + styles + normalizer
  }

  /** The generated text from its parts: the first template literal
      (a newline, the parts, a newline and the two spaces of indentation
      before the closing quote) trimmed, a newline, the hot-reload
      bootstrap, the default export. */
  function ModuleText(t: string, s: string, st: string, n: string, h: string): (r: string)
    ensures EndsWith(r, ExportLine)
  {
    var body := Trim("\n" + Parts(t, s, st, n) + "\n  ") + "\n" + h;
    var r := body + ExportLine;
    assert r[|body|..] == ExportLine;
    r
  }

  /** `parseSFC(root, filePath, publicPath, descriptor)`. */
  function AssembleModule(env: Env, publicPath: string, d: Descriptor): string {
    ModuleText(TemplatePart(d, publicPath), ScriptPart(env, d, publicPath),
               StyleImports.StylesCode(d.styles, publicPath),
               NormalizerCall(FunctionalArg(d), ScopeArg(env, d, publicPath)),
               HotReload.HotReloadCode(publicPath, HasFunctional(d)))
  }

  // ---------------------------------------------------------------------
  // Properties.

  /** `trim` removes exactly the framing newline and indentation when the
      template part opens with a visible character and the normalizer call
      closes with one. The result opens with the template part. */
  lemma TrimmedLayout(t: string, s: string, st: string, n: string, h: string)
    requires |t| > 0 && !IsWhitespace(t[0])
    requires |n| > 0 && n[|n| - 1] == ')'
    ensures ModuleText(t, s, st, n, h) == Parts(t, s, st, n) + "\n" + h + ExportLine
  {
    var core := Parts(t, s, st, n);
    assert core[0] == t[0];
    assert core[|core| - 1] == n[|n| - 1];
    var trail := "\n  ";
    assert forall i :: 0 <= i < |trail| ==> IsWhitespace(trail[i]);
    TrimFramed("\n", core, trail);
  }

  /** Laid out this way, the text opens with the template part's line. */
  lemma OpensWith(t: string, s: string, st: string, n: string, h: string)
    requires |t| > 0
    ensures var m := Parts(t, s, st, n) + "\n" + h + ExportLine;
      StartsWith(m, t + "\n") && m[0] == t[0]
  {
    var m := Parts(t, s, st, n) + "\n" + h + ExportLine;
    assert forall i :: 0 <= i <= |t| ==> m[i] == (t + "\n")[i];
  }

  /** The parts in the order the module states them: template, script,
      styles, normalizer call, an empty line, the hot-reload bootstrap, the
      export. `trim` removes only the newline that opens the template
      literal and the indentation that closes it. */
  lemma ModuleLayout(env: Env, publicPath: string, d: Descriptor)
    ensures AssembleModule(env, publicPath, d)
         == Parts(TemplatePart(d, publicPath), ScriptPart(env, d, publicPath),
                  StyleImports.StylesCode(d.styles, publicPath),
                  NormalizerCall(FunctionalArg(d), ScopeArg(env, d, publicPath)))
            + "\n" + HotReload.HotReloadCode(publicPath, HasFunctional(d)) + ExportLine
    ensures EndsWith(AssembleModule(env, publicPath, d), ExportLine)
  {
    TrimmedLayout(TemplatePart(d, publicPath), ScriptPart(env, d, publicPath),
                  StyleImports.StylesCode(d.styles, publicPath),
                  NormalizerCall(FunctionalArg(d), ScopeArg(env, d, publicPath)),
                  HotReload.HotReloadCode(publicPath, HasFunctional(d)));
  }

  /** The module opens with the template part: the placeholder bindings
      exactly when there is no template. */
  lemma TemplateOpensModule(env: Env, publicPath: string, d: Descriptor)
    ensures StartsWith(AssembleModule(env, publicPath, d), TemplatePart(d, publicPath) + "\n")
    ensures AssembleModule(env, publicPath, d)[0] == 'v' <==> d.template.None?
  {
    ModuleLayout(env, publicPath, d);
    OpensWith(TemplatePart(d, publicPath), ScriptPart(env, d, publicPath),
                  StyleImports.StylesCode(d.styles, publicPath),
                  NormalizerCall(FunctionalArg(d), ScopeArg(env, d, publicPath)),
                  HotReload.HotReloadCode(publicPath, HasFunctional(d)));
  }

  /** A script is bound by the default-export rewrite of its source, which
      replaces the first qualifying `export default` and nothing else. */
  lemma ScriptBinding(env: Env, publicPath: string, d: Descriptor)
    requires d.script.Some?
    ensures var code := ScriptSource(env, d.script.value, publicPath);
      && ((forall k :: !ExportRewrite.Qualifies(code, k)) ==> ScriptPart(env, d, publicPath) == code)
      && (forall k :: ExportRewrite.FirstQualifying(code, k) ==>
            ScriptPart(env, d, publicPath)
            == code[..k] + ExportRewrite.Binding + code[k + |ExportRewrite.Phrase|..])
  {
    ExportRewrite.RewriteReplacesFirstQualifying(ScriptSource(env, d.script.value, publicPath));
  }

  /** The usual plain script, `export default {...}`: the module binds the
      same object literal to `script`. */
  lemma PlainScriptBound(env: Env, publicPath: string, d: Descriptor, rest: string)
    requires d.script == Some(ScriptBlock(ExportRewrite.Phrase + rest, None))
    ensures ScriptPart(env, d, publicPath) == ExportRewrite.Binding + rest
  {
    ExportRewrite.RewriteLeadingExport(rest);
  }

  /** The transpiler is consulted only for `lang="ts"`: for any other script
      (or none) two environments that agree on the hash produce the same
      module. */
  lemma TranspilerOnlyForTs(env1: Env, env2: Env, publicPath: string, d: Descriptor)
    requires d.script.Some? ==> d.script.value.lang != Some("ts")
    requires env1.hashSum(publicPath) == env2.hashSum(publicPath)
    ensures AssembleModule(env1, publicPath, d) == AssembleModule(env2, publicPath, d)
  {
    assert ScriptPart(env1, d, publicPath) == ScriptPart(env2, d, publicPath);
    assert ScopeArg(env1, d, publicPath) == ScopeArg(env2, d, publicPath);
  }

  /** `scoped` influences only the scope id: two components that agree on
      the template, the script and the `module` attribute of every style
      emit the same style statements, and the same module whenever their
      scope-id arguments agree. */
  lemma ScopedOnlyChangesScopeId(env: Env, publicPath: string, d1: Descriptor, d2: Descriptor)
    requires d1.template == d2.template && d1.script == d2.script
    requires |d1.styles| == |d2.styles|
    requires forall i :: 0 <= i < |d1.styles| ==> d1.styles[i].cssModule == d2.styles[i].cssModule
    ensures StyleImports.StylesCode(d1.styles, publicPath) == StyleImports.StylesCode(d2.styles, publicPath)
    ensures ScopeArg(env, d1, publicPath) == ScopeArg(env, d2, publicPath) ==>
      AssembleModule(env, publicPath, d1) == AssembleModule(env, publicPath, d2)
  {
    StyleImports.LinesIgnoreScoped(d1.styles, d2.styles, |d1.styles|);
  }

  /** The scope id is a function of the public path alone: two components
      served at the same path, both with a scoped style, get the same id
      whatever else they contain. */
  lemma ScopeIdPerPath(env: Env, publicPath: string, d1: Descriptor, d2: Descriptor)
    requires AnyScoped(d1.styles) && AnyScoped(d2.styles)
    ensures ScopeArg(env, d1, publicPath) == ScopeArg(env, d2, publicPath) != "null"
  {
  }

  /** The `functional` argument of the normalizer call and the update call
      named in the hot-reload comment follow one flag: the module is laid out
      with some `f` that is `true` exactly when the template is functional,
      passed to the normalizer as written and to the bootstrap as `f == "true"`. */
  lemma FunctionalFlagsAgree(env: Env, publicPath: string, d: Descriptor)
    ensures exists f ::
      && (f == "true" <==> HasFunctional(d))
      && AssembleModule(env, publicPath, d)
         == Parts(TemplatePart(d, publicPath), ScriptPart(env, d, publicPath),
                  StyleImports.StylesCode(d.styles, publicPath),
                  NormalizerCall(f, ScopeArg(env, d, publicPath)))
            + "\n" + HotReload.HotReloadCode(publicPath, f == "true") + ExportLine
    ensures HotReload.LineText(HotReload.AcceptUpdate, publicPath, HasFunctional(d))
         == "\t\t \t\t// \t __VUE_HMR_RUNTIME__." + (if FunctionalArg(d) == "true" then "rerender" else "reload")
            + "('" + publicPath + "', component.options)"
  {
    UpdateCallFollowsFlag(d, publicPath);
    var f := FunctionalArg(d);
    assert f == "true" <==> HasFunctional(d);
    ModuleLayout(env, publicPath, d);
    assert (f == "true") == HasFunctional(d);
  }

  lemma UpdateCallFollowsFlag(d: Descriptor, publicPath: string)
    ensures HotReload.LineText(HotReload.AcceptUpdate, publicPath, HasFunctional(d))
         == "\t\t \t\t// \t __VUE_HMR_RUNTIME__." + (if FunctionalArg(d) == "true" then "rerender" else "reload")
            + "('" + publicPath + "', component.options)"
  {
  }
}
