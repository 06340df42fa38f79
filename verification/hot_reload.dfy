/**
 * The hot-reload bootstrap appended to every assembled component module.
 *
 * The bootstrap is described as a small statement tree. Each node names the
 * line(s) of text the generator writes for it (`BootLine`, rendered by
 * `LineText`), so that rendering the tree gives the emitted text, and each
 * node has a meaning on a model of the hot-reload runtime's record table.
 * The runtime itself is served from a file that is not part of this model;
 * only what the bootstrap asks of it is modelled: `install`, `compatible`,
 * `isRecorded` and `createRecord`.
 */
module HotReload {
  import opened JsText

  /** The dev-server path the runtime is served from. */
  const RuntimePath: string := "/vite/vueHotReload"

  const NotCompatibleMessage: string := "The hmr is not compatible."

  /** The eighteen lines of the bootstrap, in the order written. */
  datatype BootLine =
    | Banner | ImportRuntime | ImportVue
    | OpenHot | InstallCall | OpenCompatible | OpenGuard | CreateCall
    | AcceptOpen | AcceptRender | AcceptStatic | AcceptUpdate | AcceptClose
    | CloseGuard | ElseIncompatible | LogCall | CloseCompatible | CloseHot

  /** The text of each line, tabs and spaces as the generator writes them;
      publicPath is interpolated between single quotes without escaping, and
      the functional flag picks `rerender` or `reload` inside a comment. */
  function LineText(l: BootLine, pp: string, functional: bool): string {
    match l
    case Banner => "/* hot reload */"
    case ImportRuntime => "import __VUE_HMR_RUNTIME__ from \"/vite/vueHotReload\""
    case ImportVue => "import vue from \"vue\""
    case OpenHot => "if (import.meta.hot) {"
    case InstallCall => "\t__VUE_HMR_RUNTIME__.install(vue)"
    case OpenCompatible => "\tif(__VUE_HMR_RUNTIME__.compatible){"
    case OpenGuard => "\t\t if (!__VUE_HMR_RUNTIME__.isRecorded('" + pp + "')) {"
    case CreateCall => "\t\t\t __VUE_HMR_RUNTIME__.createRecord('" + pp + "', component.options)"
    case AcceptOpen => "\t\t \t // import.meta.hot.acceptDeps(\"" + pp + "?type=template\", (mod) => {"
    case AcceptRender => "\t\t \t\t// \t component.options = mod.render"
    case AcceptStatic => "\t\t \t\t// \t component.options = mode.staticRenderFns"
    case AcceptUpdate =>
      "\t\t \t\t// \t __VUE_HMR_RUNTIME__." + (if functional then "rerender" else "reload") + "('" + pp + "', component.options)"
    case AcceptClose => "\t\t \t // })"
    case CloseGuard => "\t\t }"
    case ElseIncompatible => "\t} else {"
    case LogCall => "\t\t\tconsole.log(\"The hmr is not compatible.\")"
    case CloseCompatible => "\t}"
    case CloseHot => "}"
  }

  /** The conditions the bootstrap tests. */
  datatype Cond =
    | HotContext               // `import.meta.hot`
    | Compatible               // `__VUE_HMR_RUNTIME__.compatible`
    | NotRecorded(key: string) // `!__VUE_HMR_RUNTIME__.isRecorded(key)`

  /** A statement together with the line(s) it is written as. */
  datatype Stmt =
    | Inert(line: BootLine)                 // comment or import: no effect on the runtime
    | Install(line: BootLine)               // `__VUE_HMR_RUNTIME__.install(vue)`
    | CreateRecord(key: string, line: BootLine)
    | Log(message: string, line: BootLine)  // `console.log(message)`
    | If(cond: Cond, header: BootLine, body: seq<Stmt>,
         elseLine: Option<BootLine>, alt: seq<Stmt>, closer: BootLine)

  /** The lines of one statement. */
  function RenderStmt(s: Stmt): seq<BootLine>
    decreases s
  {
    match s
    case Inert(l) => [l]
    case Install(l) => [l]
    case CreateRecord(_, l) => [l]
    case Log(_, l) => [l]
    case If(_, h, body, e, alt, c) =>
      [h] + Render(body) + (if e.Some? then [e.value] + Render(alt) else []) + [c]
  }

  /** The lines of a statement list. */
  function Render(ss: seq<Stmt>): seq<BootLine>
    decreases ss
  {
    if |ss| == 0 then [] else RenderStmt(ss[0]) + Render(ss[1..])
  }

  /** The body of the `isRecorded` guard: the record is created, followed by
      a commented-out dependency handler. */
  function RecordBody(pp: string): seq<Stmt> {
    [CreateRecord(pp, CreateCall)]
    + [Inert(AcceptOpen), Inert(AcceptRender), Inert(AcceptStatic), Inert(AcceptUpdate), Inert(AcceptClose)]
  }

  function RecordGuard(pp: string): Stmt {
    If(NotRecorded(pp), OpenGuard, RecordBody(pp), None, [], CloseGuard)
  }

  function CompatibleCheck(pp: string): Stmt {
    If(Compatible, OpenCompatible, [RecordGuard(pp)],
       Some(ElseIncompatible), [Log(NotCompatibleMessage, LogCall)], CloseCompatible)
  }

  function HotCheck(pp: string): Stmt {
    If(HotContext, OpenHot, [Install(InstallCall)] + [CompatibleCheck(pp)], None, [], CloseHot)
  }

  /** The comment and imports that open the bootstrap. */
  const Prelude: seq<Stmt> := [Inert(Banner), Inert(ImportRuntime), Inert(ImportVue)]

  /** The bootstrap for a component served at publicPath. Whether the
      template is functional changes the text of one comment only, so the
      statements do not depend on it. The key of `isRecorded` and
      `createRecord` is publicPath itself: the string the literal
      `'<publicPath>'` denotes when publicPath holds no `'`, no `\` and no
      line terminator. */
  function Bootstrap(publicPath: string): seq<Stmt> {
    Prelude + [HotCheck(publicPath)]
  }

  /** The text of a list of lines. */
  function Texts(ls: seq<BootLine>, pp: string, functional: bool): (ts: seq<string>)
    ensures |ts| == |ls|
    ensures forall i :: 0 <= i < |ls| ==> ts[i] == LineText(ls[i], pp, functional)
    decreases |ls|
  {
    if |ls| == 0 then [] else [LineText(ls[0], pp, functional)] + Texts(ls[1..], pp, functional)
  }

  /** The text the generator appends after the normalizer call. */
  function HotReloadCode(publicPath: string, functional: bool): string {
    JoinLines(Texts(Render(Bootstrap(publicPath)), publicPath, functional))
  }

  // ---------------------------------------------------------------------
  // What the bootstrap does when the module is evaluated.

  /** The part of the world the bootstrap reads and writes: whether the module
      runs with `import.meta.hot`, the runtime's compatibility flag, the value
      `install(vue)` sets that flag to (the runtime's verdict on the Vue
      build), whether it has been installed, its record table (component
      options of type O, by id) and the console. */
  datatype Runtime<O> = Runtime(
    hot: bool,
    compatible: bool,
    vueCompatible: bool,
    installed: bool,
    records: map<string, O>,
    console: seq<string>)

  predicate Holds<O>(c: Cond, rt: Runtime<O>) {
    match c
    case HotContext => rt.hot
    case Compatible => rt.compatible
    case NotRecorded(key) => key !in rt.records
  }

  /** Running one statement, with `options` as `component.options`. */
  function Step<O>(s: Stmt, rt: Runtime<O>, options: O): Runtime<O>
    decreases s
  {
    match s
    case Inert(_) => rt
    case Install(_) => rt.(installed := true, compatible := rt.vueCompatible)
    case CreateRecord(key, _) => rt.(records := rt.records[key := options])
    case Log(message, _) => rt.(console := rt.console + [message])
    case If(c, _, body, _, alt, _) =>
      if Holds(c, rt) then Run(body, rt, options) else Run(alt, rt, options)
  }

  /** Running a statement list in order. */
  function Run<O>(ss: seq<Stmt>, rt: Runtime<O>, options: O): Runtime<O>
    decreases ss
  {
    if |ss| == 0 then rt else Run(ss[1..], Step(ss[0], rt, options), options)
  }

  // ---------------------------------------------------------------------
  // Lists of statements.

  lemma {:induction false} RenderAppend(a: seq<Stmt>, b: seq<Stmt>)
    ensures Render(a + b) == Render(a) + Render(b)
    decreases |a|
  {
    if |a| == 0 {
      assert a + b == b;
    } else {
      assert (a + b)[1..] == a[1..] + b;
      RenderAppend(a[1..], b);
    }
  }

  lemma RenderOne(s: Stmt)
    ensures Render([s]) == RenderStmt(s)
  {
    assert [s][1..] == [];
  }

  lemma {:induction false} RunAppend<O>(a: seq<Stmt>, b: seq<Stmt>, rt: Runtime<O>, options: O)
    ensures Run(a + b, rt, options) == Run(b, Run(a, rt, options), options)
    decreases |a|
  {
    if |a| == 0 {
      assert a + b == b;
    } else {
      assert (a + b)[1..] == a[1..] + b;
      RunAppend(a[1..], b, Step(a[0], rt, options), options);
    }
  }

  /** Comments and imports change nothing. */
  lemma {:induction false} RunInert<O>(ss: seq<Stmt>, rt: Runtime<O>, options: O)
    requires forall i :: 0 <= i < |ss| ==> ss[i].Inert?
    ensures Run(ss, rt, options) == rt
    decreases |ss|
  {
    if |ss| > 0 {
      RunInert(ss[1..], rt, options);
    }
  }

  lemma RunOne<O>(s: Stmt, rt: Runtime<O>, options: O)
    ensures Run([s], rt, options) == Step(s, rt, options)
  {
    assert [s][1..] == [];
  }

  // ---------------------------------------------------------------------
  // The text of the bootstrap.

  /** Comments and imports render as their own lines. */
  lemma {:induction false} RenderInert(ss: seq<Stmt>)
    requires forall i :: 0 <= i < |ss| ==> ss[i].Inert?
    ensures |Render(ss)| == |ss|
    ensures forall i :: 0 <= i < |ss| ==> Render(ss)[i] == ss[i].line
    decreases |ss|
  {
    if |ss| > 0 {
      RenderInert(ss[1..]);
    }
  }

  lemma GuardLines(pp: string)
    ensures Render([RecordGuard(pp)]) == [
      OpenGuard, CreateCall,
      AcceptOpen, AcceptRender, AcceptStatic, AcceptUpdate, AcceptClose,
      CloseGuard]
  {
    var body := RecordBody(pp);
    RenderAppend(body[..1], body[1..]);
    assert body[..1] + body[1..] == body;
    RenderOne(body[0]);
    RenderInert(body[1..]);
    RenderOne(RecordGuard(pp));
  }

  lemma CompatibleLines(pp: string)
    ensures Render([CompatibleCheck(pp)]) ==
      [OpenCompatible] + Render([RecordGuard(pp)]) + [ElseIncompatible, LogCall, CloseCompatible]
  {
    var compat := CompatibleCheck(pp);
    RenderOne(compat);
    RenderOne(compat.alt[0]);
  }

  lemma HotLines(pp: string)
    ensures Render([HotCheck(pp)]) == [OpenHot, InstallCall] + Render([CompatibleCheck(pp)]) + [CloseHot]
  {
    RenderOne(HotCheck(pp));
    RenderAppend([Install(InstallCall)], [CompatibleCheck(pp)]);
    RenderOne(Install(InstallCall));
  }

  /** The lines of the bootstrap, in the order the generator writes them:
      rendering the tree reproduces the template literal line by line. */
  lemma BootstrapLines(pp: string)
    ensures Render(Bootstrap(pp)) == [
      Banner, ImportRuntime, ImportVue,
      OpenHot, InstallCall, OpenCompatible, OpenGuard, CreateCall,
      AcceptOpen, AcceptRender, AcceptStatic, AcceptUpdate, AcceptClose,
      CloseGuard, ElseIncompatible, LogCall, CloseCompatible, CloseHot]
  {
    GuardLines(pp);
    CompatibleLines(pp);
    HotLines(pp);
    RenderAppend(Prelude, [HotCheck(pp)]);
    RenderInert(Prelude);
  }

  // ---------------------------------------------------------------------
  // The behaviour of the bootstrap.

  /** What evaluating the bootstrap does, stated directly: nothing outside a
      hot context; otherwise the runtime is installed, which settles its
      compatibility flag, and then the record is created (compatible and not
      yet recorded), or nothing more happens (already recorded), or the
      incompatibility is logged. */
  function Expected<O>(pp: string, rt: Runtime<O>, options: O): Runtime<O> {
    if !rt.hot then rt
    else
      var r := rt.(installed := true, compatible := rt.vueCompatible);
      if !rt.vueCompatible then r.(console := rt.console + [NotCompatibleMessage])
      else if pp in rt.records then r
      else r.(records := rt.records[pp := options])
  }

  /** Running the bootstrap has exactly the expected effect. */
  lemma BootstrapEffect<O>(pp: string, rt: Runtime<O>, options: O)
    ensures Run(Bootstrap(pp), rt, options) == Expected(pp, rt, options)
  {
    RunAppend(Prelude, [HotCheck(pp)], rt, options);
    RunInert(Prelude, rt, options);
    RunOne(HotCheck(pp), rt, options);
    if rt.hot {
      var installed := rt.(installed := true, compatible := rt.vueCompatible);
      RunAppend([Install(InstallCall)], [CompatibleCheck(pp)], rt, options);
      RunOne(Install(InstallCall), rt, options);
      RunOne(CompatibleCheck(pp), installed, options);
      if rt.vueCompatible {
        RunOne(RecordGuard(pp), installed, options);
        if pp !in rt.records {
          var body := RecordBody(pp);
          RunAppend(body[..1], body[1..], installed, options);
          assert body[..1] + body[1..] == body;
          RunOne(body[0], installed, options);
          RunInert(body[1..], installed.(records := rt.records[pp := options]), options);
        }
      } else {
        RunOne(Log(NotCompatibleMessage, LogCall), installed, options);
      }
    }
  }

  /** The record for the component's path is created exactly when the module
      is hot, `install(vue)` finds the runtime compatible and no record exists
      yet; every other record is left as it was. The flag as it stood before
      `install` plays no part. */
  lemma RecordEffect<O>(pp: string, rt: Runtime<O>, options: O)
    ensures Run(Bootstrap(pp), rt, options).records ==
      if rt.hot && rt.vueCompatible && pp !in rt.records then rt.records[pp := options] else rt.records
  {
    BootstrapEffect(pp, rt, options);
  }

  /** Evaluating the module a second time (a re-import after an edit) leaves
      the record table as the first evaluation left it, even with new options. */
  lemma RecordsIdempotent<O>(pp: string, rt: Runtime<O>, o1: O, o2: O)
    ensures var once := Run(Bootstrap(pp), rt, o1);
      Run(Bootstrap(pp), once, o2).records == once.records
  {
    var once := Run(Bootstrap(pp), rt, o1);
    BootstrapEffect(pp, rt, o1);
    BootstrapEffect(pp, once, o2);
  }

  // ---------------------------------------------------------------------
  // Record creation is guarded, for any statement list.

  /** The keys a statement may create records for. */
  function CreatedBy(s: Stmt): set<string>
    decreases s
  {
    match s
    case CreateRecord(key, _) => {key}
    case If(_, _, body, _, alt, _) => Created(body) + Created(alt)
    case _ => {}
  }

  function Created(ss: seq<Stmt>): set<string>
    decreases ss
  {
    if |ss| == 0 then {} else CreatedBy(ss[0]) + Created(ss[1..])
  }

  /** Every `createRecord(k, ...)` in s runs only where k is known to be
      absent: absent holds the keys that enclosing `isRecorded` tests found
      missing and that nothing has recorded since. */
  predicate GuardedStmt(s: Stmt, absent: set<string>)
    decreases s
  {
    match s
    case CreateRecord(key, _) => key in absent
    case If(c, _, body, _, alt, _) =>
      Guarded(body, if c.NotRecorded? then absent + {c.key} else absent) && Guarded(alt, absent)
    case _ => true
  }

  predicate Guarded(ss: seq<Stmt>, absent: set<string>)
    decreases ss
  {
    |ss| == 0 || (GuardedStmt(ss[0], absent) && Guarded(ss[1..], absent - CreatedBy(ss[0])))
  }

  /** No key in absent is recorded. */
  ghost predicate Unrecorded<O>(absent: set<string>, rt: Runtime<O>) {
    forall k :: k in absent ==> k !in rt.records
  }

  /** rt' keeps every record of rt, with the same options. */
  ghost predicate Keeps<O>(rt: Runtime<O>, rt': Runtime<O>) {
    forall k :: k in rt.records ==> k in rt'.records && rt'.records[k] == rt.records[k]
  }

  /** rt' records nothing new outside keys. */
  ghost predicate AddsOnly<O>(rt: Runtime<O>, rt': Runtime<O>, keys: set<string>) {
    forall k :: k in rt'.records && k !in keys ==> k in rt.records
  }

  lemma KeepsTransitive<O>(a: Runtime<O>, b: Runtime<O>, c: Runtime<O>)
    requires Keeps(a, b) && Keeps(b, c)
    ensures Keeps(a, c)
  {
  }

  /** A guarded statement never overwrites a record. */
  lemma {:induction false} GuardedStmtKeeps<O>(s: Stmt, absent: set<string>, rt: Runtime<O>, options: O)
    requires GuardedStmt(s, absent) && Unrecorded(absent, rt)
    ensures Keeps(rt, Step(s, rt, options))
    ensures AddsOnly(rt, Step(s, rt, options), CreatedBy(s))
    decreases s
  {
    match s
    case If(c, _, body, _, alt, _) =>
      if Holds(c, rt) {
        GuardedKeeps(body, if c.NotRecorded? then absent + {c.key} else absent, rt, options);
      } else {
        GuardedKeeps(alt, absent, rt, options);
      }
    case _ =>
  }

  /** A guarded statement list never overwrites a record, and records only
      keys it creates. */
  lemma {:induction false} GuardedKeeps<O>(ss: seq<Stmt>, absent: set<string>, rt: Runtime<O>, options: O)
    requires Guarded(ss, absent) && Unrecorded(absent, rt)
    ensures Keeps(rt, Run(ss, rt, options))
    ensures AddsOnly(rt, Run(ss, rt, options), Created(ss))
    decreases ss
  {
    if |ss| > 0 {
      var rt1 := Step(ss[0], rt, options);
      GuardedStmtKeeps(ss[0], absent, rt, options);
      GuardedKeeps(ss[1..], absent - CreatedBy(ss[0]), rt1, options);
      KeepsTransitive(rt, rt1, Run(ss[1..], rt1, options));
    }
  }

  lemma {:induction false} CreatedAppend(a: seq<Stmt>, b: seq<Stmt>)
    ensures Created(a + b) == Created(a) + Created(b)
    decreases |a|
  {
    if |a| == 0 {
      assert a + b == b;
    } else {
      assert (a + b)[1..] == a[1..] + b;
      CreatedAppend(a[1..], b);
    }
  }

  lemma {:induction false} GuardedAppend(a: seq<Stmt>, b: seq<Stmt>, absent: set<string>)
    requires Guarded(a, absent) && Guarded(b, absent - Created(a))
    ensures Guarded(a + b, absent)
    decreases |a|
  {
    if |a| == 0 {
      assert a + b == b;
      assert absent - Created(a) == absent;
    } else {
      assert (a + b)[1..] == a[1..] + b;
      assert absent - CreatedBy(a[0]) - Created(a[1..]) == absent - Created(a);
      GuardedAppend(a[1..], b, absent - CreatedBy(a[0]));
    }
  }

  lemma GuardedOne(s: Stmt, absent: set<string>)
    ensures Guarded([s], absent) <==> GuardedStmt(s, absent)
    ensures Created([s]) == CreatedBy(s)
  {
    assert [s][1..] == [];
  }

  /** Comments and imports create nothing and need no guard. */
  lemma {:induction false} InertGuarded(ss: seq<Stmt>, absent: set<string>)
    requires forall i :: 0 <= i < |ss| ==> ss[i].Inert?
    ensures Guarded(ss, absent) && Created(ss) == {}
    decreases |ss|
  {
    if |ss| > 0 {
      InertGuarded(ss[1..], absent);
      assert absent - CreatedBy(ss[0]) == absent;
    }
  }

  /** The bootstrap is guarded: it calls `createRecord` with the same path it
      has just tested with `isRecorded`, and creates nothing else. */
  lemma BootstrapGuarded(pp: string)
    ensures Guarded(Bootstrap(pp), {})
    ensures Created(Bootstrap(pp)) == {pp}
  {
    // the guard's body, where pp is known to be absent
    var body := RecordBody(pp);
    var create := body[..1];
    assert create + body[1..] == body;
    GuardedOne(body[0], {pp});
    InertGuarded(body[1..], {pp} - {pp});
    GuardedAppend(create, body[1..], {pp});
    CreatedAppend(create, body[1..]);
    // the `isRecorded` guard and the `compatible` test
    assert {} + {pp} == {pp};
    GuardedOne(RecordGuard(pp), {});
    var compat := CompatibleCheck(pp);
    GuardedOne(compat.alt[0], {});
    GuardedOne(compat, {});
    // the hot-context test
    var hot := HotCheck(pp);
    GuardedOne(Install(InstallCall), {});
    GuardedAppend([Install(InstallCall)], [compat], {});
    CreatedAppend([Install(InstallCall)], [compat]);
    GuardedOne(hot, {});
    // the whole bootstrap
    InertGuarded(Prelude, {});
    GuardedAppend(Prelude, [hot], {});
    CreatedAppend(Prelude, [hot]);
  }

  /** Hence evaluating the bootstrap never overwrites a record, whatever the
      state of the runtime. */
  lemma NeverOverwrites<O>(pp: string, rt: Runtime<O>, options: O)
    ensures Keeps(rt, Run(Bootstrap(pp), rt, options))
  {
    BootstrapGuarded(pp);
    GuardedKeeps(Bootstrap(pp), {}, rt, options);
  }
}
