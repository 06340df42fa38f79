/**
 * The dev-server middleware of the plugin: which requests it answers, with
 * what body, and which it hands on to the next middleware.
 *
 * The Koa context is reduced to the request's path, its `ctx.vue` flag and
 * its `type` query parameter. Everything the middleware obtains from outside
 * (the body the next middleware leaves for `/vite/hmr`, the two runtime
 * texts, the parsed descriptor of the requested file, the template compiler,
 * the environment of the generator and NODE_ENV) is a field of Host.
 */
module Dispatcher {
  import opened JsText
  import opened Sfc
  import Assembler
  import TemplateModule
  import HmrRewrite
  import HotReload

  const HmrPath: string := "/vite/hmr"
  const VueSuffix: string := ".vue"

  /** The parts of a request the middleware looks at. */
  datatype Request = Request(path: string, vue: bool, queryType: Option<string>)

  /** The outside world as the middleware sees it. `parse` stands for
      resolving the public path to a file, reading it and parsing it; `None`
      is a falsy descriptor. `hmrBody` is the body the next middleware leaves
      for `/vite/hmr`. */
  datatype Host = Host(
    hmrBody: string,
    hotReloadRuntime: string,
    normalizerRuntime: string,
    parse: string -> Option<Descriptor>,
    filePath: string -> string,
    compile: TemplateModule.TemplateOptions -> TemplateModule.CompileResult,
    env: Assembler.Env,
    nodeEnv: Option<string>)

  /** The branch of the middleware a request takes. */
  datatype Route =
    | HmrBody            // `/vite/hmr`: the next middleware's body, rewritten
    | HotReloadRuntime   // the hot-reload runtime module
    | NormalizerRuntime  // the component normalizer module
    | PassThrough        // not a component: handed on
    | NoBody             // falsy descriptor or unknown `type`: nothing served
    | Full               // no `type`: the assembled component module
    | Template           // `type=template`: the compiled template module
    | TemplateMissing    // `type=template` on a component without template
    | StyleDeferred      // `type=style`: handed on

  /** What the middleware does: serve a body (after awaiting the next
      middleware or not), hand the request on, return without a body, or
      throw. */
  datatype Response =
    | Serve(awaitsNext: bool, body: string)
    | Delegate
    | Silent
    | Throws

  /** `!query.type`: an absent or empty `type` parameter. */
  predicate NoType(q: Option<string>) {
    q.None? || q.value == ""
  }

  /** The request is for a single-file component: its path ends in `.vue`
      or an earlier middleware flagged it. */
  predicate ClaimsComponent(req: Request) {
    EndsWith(req.path, VueSuffix) || req.vue
  }

  /** The branch taken, in the order the middleware tests its conditions. */
  function Classify(req: Request, parsed: Option<Descriptor>): Route {
    if req.path == HmrPath then HmrBody
    else if req.path == HotReload.RuntimePath then HotReloadRuntime
    else if req.path == Assembler.NormalizerPath then NormalizerRuntime
    else if !ClaimsComponent(req) then PassThrough
    else if parsed.None? then NoBody
    else if NoType(req.queryType) then Full
    else if req.queryType.value == "template" then
      if parsed.value.template.Some? then Template else TemplateMissing
    else if req.queryType.value == "style" then StyleDeferred
    else NoBody
  }

  /** The middleware. */
  function Handle(host: Host, req: Request): (r: Response)
    ensures r.Serve? <==> Classify(req, host.parse(req.path)) in {HmrBody, HotReloadRuntime, NormalizerRuntime, Full, Template}
    ensures r.Serve? && r.awaitsNext <==> Classify(req, host.parse(req.path)) in {HmrBody, Full}
  {
    var parsed := host.parse(req.path);
    match Classify(req, parsed)
    case HmrBody => Serve(true, HmrRewrite.RewriteHmrBody(host.hmrBody))
    case HotReloadRuntime => Serve(false, host.hotReloadRuntime)
    case NormalizerRuntime => Serve(false, host.normalizerRuntime)
    case PassThrough => Delegate
    case NoBody => Silent
    case Full => Serve(true, Assembler.AssembleModule(host.env, req.path, parsed.value))
    case Template =>
      Serve(false, TemplateModule.CompileTemplateModule(host.compile, parsed.value.template.value,
                                                        host.filePath(req.path), req.path, host.nodeEnv))
    case TemplateMissing => Throws
    case StyleDeferred => Delegate
  }

  // ---------------------------------------------------------------------
  // Properties.

  /** One of the three fixed paths. */
  predicate IsFixedPath(path: string) {
    path == HmrPath || path == HotReload.RuntimePath || path == Assembler.NormalizerPath
  }

  /** The condition of each branch, stated on its own rather than by the
      order of the tests. */
  predicate Condition(r: Route, req: Request, parsed: Option<Descriptor>) {
    var component := !IsFixedPath(req.path) && ClaimsComponent(req);
    var q := req.queryType;
    match r
    case HmrBody => req.path == HmrPath
    case HotReloadRuntime => req.path == HotReload.RuntimePath
    case NormalizerRuntime => req.path == Assembler.NormalizerPath
    case PassThrough => !IsFixedPath(req.path) && !ClaimsComponent(req)
    case NoBody =>
      component && (parsed.None? || (!NoType(q) && q.value != "template" && q.value != "style"))
    case Full => component && parsed.Some? && NoType(q)
    case Template => component && parsed.Some? && q == Some("template") && parsed.value.template.Some?
    case TemplateMissing => component && parsed.Some? && q == Some("template") && parsed.value.template.None?
    case StyleDeferred => component && parsed.Some? && q == Some("style")
  }

  /** The fixed paths are distinct and none of them ends in `.vue`. */
  lemma FixedPathsDistinct()
    ensures HmrPath != HotReload.RuntimePath && HmrPath != Assembler.NormalizerPath
    ensures HotReload.RuntimePath != Assembler.NormalizerPath
    ensures !EndsWith(HmrPath, VueSuffix) && !EndsWith(HotReload.RuntimePath, VueSuffix)
    ensures !EndsWith(Assembler.NormalizerPath, VueSuffix)
  {
    assert HmrPath[6] != HotReload.RuntimePath[6];
    assert HmrPath[6] != Assembler.NormalizerPath[6];
    assert HotReload.RuntimePath[9] != Assembler.NormalizerPath[9];
    assert HmrPath[|HmrPath| - 1] != 'e';
    assert HotReload.RuntimePath[|HotReload.RuntimePath| - 1] != 'e';
    assert Assembler.NormalizerPath[|Assembler.NormalizerPath| - 1] != 'e';
  }

  /** The tests in their order select exactly the branch whose condition
      holds. */
  lemma ClassifyMeaning(req: Request, parsed: Option<Descriptor>, r: Route)
    ensures Classify(req, parsed) == r <==> Condition(r, req, parsed)
  {
    FixedPathsDistinct();
  }

  /** Exactly one branch applies to every request. */
  lemma ConditionsPartition(req: Request, parsed: Option<Descriptor>)
    ensures exists r :: Condition(r, req, parsed)
    ensures forall r1, r2 :: Condition(r1, req, parsed) && Condition(r2, req, parsed) ==> r1 == r2
  {
    ClassifyMeaning(req, parsed, Classify(req, parsed));
    forall r1, r2 | Condition(r1, req, parsed) && Condition(r2, req, parsed)
      ensures r1 == r2
    {
      ClassifyMeaning(req, parsed, r1);
      ClassifyMeaning(req, parsed, r2);
    }
  }

  /** The fixed paths are served whatever the `ctx.vue` flag, the query and
      the file: they are tested before anything else. */
  lemma FixedPathsFirst(host: Host, req: Request)
    requires IsFixedPath(req.path)
    ensures req.path == HmrPath ==> Handle(host, req) == Serve(true, HmrRewrite.RewriteHmrBody(host.hmrBody))
    ensures req.path == HotReload.RuntimePath ==> Handle(host, req) == Serve(false, host.hotReloadRuntime)
    ensures req.path == Assembler.NormalizerPath ==> Handle(host, req) == Serve(false, host.normalizerRuntime)
  {
    FixedPathsDistinct();
  }

  /** A request that does not claim a component is handed on untouched. */
  lemma OthersHandedOn(host: Host, req: Request)
    requires !IsFixedPath(req.path) && !EndsWith(req.path, VueSuffix) && !req.vue
    ensures Handle(host, req) == Delegate
  {
  }

  /** The file is parsed only for component requests: two hosts that differ
      only in what the file parses to answer every other request alike. */
  lemma ParseOnlyForComponents(host1: Host, host2: Host, req: Request)
    requires host1.(parse := host2.parse) == host2
    requires IsFixedPath(req.path) || !ClaimsComponent(req)
    ensures Handle(host1, req) == Handle(host2, req)
  {
  }

  /** A component whose file does not parse gets no body, whatever the
      query. */
  lemma FalsyDescriptorSilent(host: Host, req: Request)
    requires !IsFixedPath(req.path) && ClaimsComponent(req) && host.parse(req.path).None?
    ensures Handle(host, req) == Silent
  {
  }

  /** A component request without `type` gets the assembled module, which
      ends with the default export of the component. */
  lemma FullModuleServed(host: Host, req: Request)
    requires !IsFixedPath(req.path) && ClaimsComponent(req)
    requires host.parse(req.path).Some? && NoType(req.queryType)
    ensures Handle(host, req).Serve? && Handle(host, req).awaitsNext
    ensures Handle(host, req).body == Assembler.AssembleModule(host.env, req.path, host.parse(req.path).value)
    ensures EndsWith(Handle(host, req).body, Assembler.ExportLine)
  {
    RoutedFull(req, host.parse(req.path));
    HandleFull(host, req);
    Assembler.ModuleLayout(host.env, req.path, host.parse(req.path).value);
  }

  lemma RoutedFull(req: Request, parsed: Option<Descriptor>)
    requires !IsFixedPath(req.path) && ClaimsComponent(req)
    requires parsed.Some? && NoType(req.queryType)
    ensures Classify(req, parsed) == Full
  {
  }

  lemma HandleFull(host: Host, req: Request)
    requires Classify(req, host.parse(req.path)) == Full
    ensures Handle(host, req) == Serve(true, Assembler.AssembleModule(host.env, req.path, host.parse(req.path).value))
  {
  }

  /** `type=template` gets the compiled template followed by the export of the
      render functions, or throws when the component has no template. */
  lemma TemplateModuleServed(host: Host, req: Request)
    requires !IsFixedPath(req.path) && ClaimsComponent(req)
    requires host.parse(req.path).Some? && req.queryType == Some("template")
    ensures var d := host.parse(req.path).value;
      && (d.template.None? ==> Handle(host, req) == Throws)
      && (d.template.Some? ==>
            && Handle(host, req)
               == Serve(false, TemplateModule.CompileTemplateModule(host.compile, d.template.value,
                                                                    host.filePath(req.path), req.path, host.nodeEnv))
            && EndsWith(Handle(host, req).body, TemplateModule.ExportSuffix))
  {
  }

  /** `type=style` is handed on; any `type` other than `template` and `style`
      gets no body. */
  lemma OtherTypes(host: Host, req: Request)
    requires !IsFixedPath(req.path) && ClaimsComponent(req)
    requires host.parse(req.path).Some? && !NoType(req.queryType)
    requires req.queryType.value != "template"
    ensures req.queryType.value == "style" ==> Handle(host, req) == Delegate
    ensures req.queryType.value != "style" ==> Handle(host, req) == Silent
  {
  }
}
