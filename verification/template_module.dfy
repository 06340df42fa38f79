/**
 * The template request (`?type=template`): the options the plugin derives
 * for the template compiler from the template block, the file path and the
 * public path, and the fixed export appended to the compiler's output. The
 * compiler itself is a parameter.
 */
module TemplateModule {
  import opened JsText
  import opened Sfc
  import PosixPath

  /** The options handed to `compileTemplate`, as far as they are data. */
  datatype TemplateOptions = TemplateOptions(
    source: string,
    filename: string,
    transformAssetUrls: bool,
    assetBase: string,
    isProduction: bool,
    isFunctional: bool,
    optimizeSSR: bool,
    prettify: bool)

  /** What the compiler returns: the code and its diagnostics. */
  datatype CompileResult = CompileResult(code: string, tips: seq<string>, errors: seq<string>)

  const ExportSuffix: string := "\nexport { render, staticRenderFns }"

  /** The options of one template compilation. `nodeEnv` is the value of the
      NODE_ENV environment variable, if set. */
  function Options(block: TemplateBlock, filePath: string, publicPath: string,
                   nodeEnv: Option<string>): TemplateOptions
  {
    TemplateOptions(
      source := block.content,
      filename := filePath,
      transformAssetUrls := true,
      assetBase := PosixPath.Dirname(publicPath),
      isProduction := nodeEnv == Some("production"),
      isFunctional := AttrTruthy(block.functional),
      optimizeSSR := false,
      prettify := false)
  }

  /** The body served for a template request: the compiled render functions
      followed by their named export. */
  function CompileTemplateModule(compile: TemplateOptions -> CompileResult, block: TemplateBlock,
                                 filePath: string, publicPath: string,
                                 nodeEnv: Option<string>): (r: string)
    ensures EndsWith(r, ExportSuffix)
    ensures r[..|r| - |ExportSuffix|] == compile(Options(block, filePath, publicPath, nodeEnv)).code
  {
    var result := compile(Options(block, filePath, publicPath, nodeEnv));
    var r := result.code + ExportSuffix;
    assert r[|r| - |ExportSuffix|..] == ExportSuffix;
    r
  }

  /** The compiler's diagnostics are logged and never reach the served body:
      two compilers that agree on the code give the same module. */
  lemma DiagnosticsNotServed(c1: TemplateOptions -> CompileResult, c2: TemplateOptions -> CompileResult,
                             block: TemplateBlock, filePath: string, publicPath: string,
                             nodeEnv: Option<string>)
    requires forall o :: c1(o).code == c2(o).code
    ensures CompileTemplateModule(c1, block, filePath, publicPath, nodeEnv)
         == CompileTemplateModule(c2, block, filePath, publicPath, nodeEnv)
  {
    var o := Options(block, filePath, publicPath, nodeEnv);
    assert c1(o).code == c2(o).code;
  }

  /** The template compiler is told the component is functional exactly when
      the assembled module passes `true` as the normalizer's functional
      argument: both read the same attribute of the same block. */
  lemma FunctionalAgreesWithComponent(d: Descriptor, filePath: string, publicPath: string,
                                      nodeEnv: Option<string>)
    requires d.template.Some?
    ensures Options(d.template.value, filePath, publicPath, nodeEnv).isFunctional <==> HasFunctional(d)
  {
  }

  /** Relative asset URLs in a component at `/<dir>/<file>` resolve against
      `/<dir>`; in a component at the root, against `/`. */
  lemma AssetBaseIsDirectory(block: TemplateBlock, filePath: string, dir: string, file: string,
                             nodeEnv: Option<string>)
    requires |file| > 0 && forall i :: 0 <= i < |file| ==> file[i] != '/'
    requires forall i :: 0 <= i < |dir| ==> dir[i] != '/'
    ensures |dir| > 0 ==>
      Options(block, filePath, "/" + dir + "/" + file, nodeEnv).assetBase == "/" + dir
    ensures Options(block, filePath, "/" + file, nodeEnv).assetBase == "/"
  {
    if |dir| > 0 {
      PosixPath.DirnameOfNestedFile(dir, file);
    }
    PosixPath.DirnameOfRootFile(file);
  }
}
