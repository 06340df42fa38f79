/**
 * The style part of the assembled module: per style block, in document
 * order, either a bare import of `<publicPath>?type=style&index=<i>`, or (for
 * a CSS-modules block) an import bound to `__style<i>` from the same request
 * with `&module` appended plus a registration of that binding in the
 * `__cssModules` map, which is declared once, before its first use.
 *
 * The emitted statements are described as a sequence of `StyleLine`s; each
 * renders to one line of text, and the text of the whole part is those lines,
 * each preceded by a newline.
 */
module StyleImports {
  import opened JsText
  import opened Sfc

  datatype StyleLine =
    | DeclareModules
    | BareImport(index: nat)
    | ModuleImport(index: nat)
    | Register(index: nat, key: string)

  const DeclareModulesText: string := "const __cssModules = script.__cssModules = {}"

  /** `publicPath + `?type=style&index=${i}``. */
  function StyleRequest(publicPath: string, i: nat): string {
    publicPath + "?type=style&index=" + Decimal(i)
  }

  /** `__style${i}`: the local name bound to a CSS-modules import. */
  function StyleVar(i: nat): string {
    "__style" + Decimal(i)
  }

  /** The text of one statement. */
  function LineText(l: StyleLine, publicPath: string): string {
    match l
    case DeclareModules => DeclareModulesText
    case BareImport(i) => "import " + JsonQuote(StyleRequest(publicPath, i))
    case ModuleImport(i) => "import " + StyleVar(i) + " from " + JsonQuote(StyleRequest(publicPath, i) + "&module")
    case Register(i, key) => "__cssModules[" + JsonQuote(key) + "] = " + StyleVar(i)
  }

  /** The text of each statement, in order. */
  function Texts(ls: seq<StyleLine>, publicPath: string): (ts: seq<string>)
    decreases |ls|
  {
    if |ls| == 0 then [] else Texts(ls[..|ls| - 1], publicPath) + [LineText(ls[|ls| - 1], publicPath)]
  }

  /** Some style before position i is a CSS-modules block. */
  predicate ModuleBefore(styles: seq<StyleBlock>, i: nat)
    requires i <= |styles|
    decreases i
  {
    i > 0 && (ModuleBefore(styles, i - 1) || IsModule(styles[i - 1]))
  }

  /** Some style before position i is scoped. */
  predicate ScopedBefore(styles: seq<StyleBlock>, i: nat)
    requires i <= |styles|
  {
    exists j :: 0 <= j < i && styles[j].scoped
  }

  /** The statements style i contributes. The map declaration goes with the
      first CSS-modules block. */
  function Chunk(styles: seq<StyleBlock>, i: nat): seq<StyleLine>
    requires i < |styles|
  {
    if IsModule(styles[i]) then
      (if ModuleBefore(styles, i) then [] else [DeclareModules])
      + [ModuleImport(i), Register(i, ModuleKey(styles[i]))]
    else [BareImport(i)]
  }

  function LinesUpTo(styles: seq<StyleBlock>, n: nat): seq<StyleLine>
    requires n <= |styles|
    decreases n
  {
    if n == 0 then [] else LinesUpTo(styles, n - 1) + Chunk(styles, n - 1)
  }

  /** Every statement of the style part, in order. */
  function Lines(styles: seq<StyleBlock>): seq<StyleLine> {
    LinesUpTo(styles, |styles|)
  }

  /** The text the generator accumulates in `stylesCode`. */
  function StylesCode(styles: seq<StyleBlock>, publicPath: string): string {
    JoinLines(Texts(Lines(styles), publicPath))
  }

  // ---------------------------------------------------------------------
  // The generator's loop.

  /** The `descriptor.styles.forEach` loop as written: it appends to the text
      and keeps the `hasScoped` and `hasCSSModules` flags. */
  method EmitStyles(styles: seq<StyleBlock>, publicPath: string)
    returns (code: string, hasScoped: bool, hasCSSModules: bool)
    ensures code == StylesCode(styles, publicPath)
    ensures hasScoped <==> AnyScoped(styles)
    ensures hasCSSModules <==> AnyModule(styles)
  {
    code, hasScoped, hasCSSModules := "", false, false;
    var i := 0;
    while i < |styles|
      invariant 0 <= i <= |styles|
      invariant code == JoinLines(Texts(LinesUpTo(styles, i), publicPath))
      invariant hasScoped <==> ScopedBefore(styles, i)
      invariant hasCSSModules <==> ModuleBefore(styles, i)
    {
      code, hasScoped, hasCSSModules := EmitStyle(styles, i, publicPath, code, hasScoped, hasCSSModules);
      i := i + 1;
    }
    WholeSequence(styles);
  }

  lemma WholeSequence(styles: seq<StyleBlock>)
    ensures ScopedBefore(styles, |styles|) <==> AnyScoped(styles)
    ensures ModuleBefore(styles, |styles|) <==> AnyModule(styles)
  {
    ModuleBeforeAny(styles, |styles|);
  }

  /** ModuleBefore says what its name says. */
  lemma {:induction false} ModuleBeforeAny(styles: seq<StyleBlock>, n: nat)
    requires n <= |styles|
    ensures ModuleBefore(styles, n) <==> exists j :: 0 <= j < n && IsModule(styles[j])
    decreases n
  {
    if n > 0 {
      ModuleBeforeAny(styles, n - 1);
      if IsModule(styles[n - 1]) {
        assert 0 <= n - 1 < n && IsModule(styles[n - 1]);
      }
    }
  }

  /** The body of the loop for style i: the statements it appends and the
      updated `hasScoped` and `hasCSSModules` flags. */
  method EmitStyle(styles: seq<StyleBlock>, i: nat, publicPath: string,
                   code: string, hasScoped: bool, hasCSSModules: bool)
    returns (code': string, hasScoped': bool, hasCSSModules': bool)
    requires i < |styles|
    requires code == JoinLines(Texts(LinesUpTo(styles, i), publicPath))
    requires hasScoped <==> ScopedBefore(styles, i)
    requires hasCSSModules <==> ModuleBefore(styles, i)
    ensures code' == JoinLines(Texts(LinesUpTo(styles, i + 1), publicPath))
    ensures hasScoped' <==> ScopedBefore(styles, i + 1)
    ensures hasCSSModules' <==> ModuleBefore(styles, i + 1)
  {
    ScopedBeforeStep(styles, i);
    var s := styles[i];
    hasScoped' := hasScoped;
    if s.scoped {
      hasScoped' := true;
    }
    var styleRequest := StyleRequest(publicPath, i);
    ghost var done := LinesUpTo(styles, i);
    if IsModule(s) {
      code', hasCSSModules' := code, hasCSSModules;
      if !hasCSSModules' {
        code' := Append(code', DeclareModulesText, done, DeclareModules, publicPath);
        hasCSSModules' := true;
        done := done + [DeclareModules];
      }
      var styleVar := StyleVar(i);
      var moduleName := ModuleKey(s);
      code' := Append(code', "import " + styleVar + " from " + JsonQuote(styleRequest + "&module"),
                      done, ModuleImport(i), publicPath);
      done := done + [ModuleImport(i)];
      code' := Append(code', "__cssModules[" + JsonQuote(moduleName) + "] = " + styleVar,
                      done, Register(i, moduleName), publicPath);
      done := done + [Register(i, moduleName)];
      ModuleChunkLines(styles, i);
    } else {
      code' := Append(code, "import " + JsonQuote(styleRequest), done, BareImport(i), publicPath);
      hasCSSModules' := hasCSSModules;
      done := done + [BareImport(i)];
    }
  }

  /** The statements of a CSS-modules block, in the order the loop appends them. */
  lemma ModuleChunkLines(styles: seq<StyleBlock>, i: nat)
    requires i < |styles| && IsModule(styles[i])
    ensures LinesUpTo(styles, i + 1) ==
      (if ModuleBefore(styles, i) then LinesUpTo(styles, i) else LinesUpTo(styles, i) + [DeclareModules])
      + [ModuleImport(i)] + [Register(i, ModuleKey(styles[i]))]
  {
  }

  /** `stylesCode += `\n...``: one statement appended on a line of its own. */
  method Append(code: string, text: string, ghost emitted: seq<StyleLine>, ghost l: StyleLine,
                publicPath: string)
    returns (code': string)
    requires code == JoinLines(Texts(emitted, publicPath))
    requires text == LineText(l, publicPath)
    ensures code' == JoinLines(Texts(emitted + [l], publicPath))
  {
    code' := code + "\n" + text;
    AppendLine(emitted, l, publicPath);
  }

  lemma ScopedBeforeStep(styles: seq<StyleBlock>, i: nat)
    requires i < |styles|
    ensures ScopedBefore(styles, i + 1) <==> ScopedBefore(styles, i) || styles[i].scoped
  {
    if styles[i].scoped {
      assert 0 <= i < i + 1 && styles[i].scoped;
    }
  }

  /** Emitting one more statement appends a newline and its text. */
  lemma AppendLine(ls: seq<StyleLine>, l: StyleLine, publicPath: string)
    ensures JoinLines(Texts(ls + [l], publicPath))
         == JoinLines(Texts(ls, publicPath)) + "\n" + LineText(l, publicPath)
  {
    assert (ls + [l])[..|ls|] == ls;
  }

  // ---------------------------------------------------------------------
  // Properties of the emitted statements.

  /** The style indices of the import statements, in emission order. */
  function ImportOrder(ls: seq<StyleLine>): seq<nat>
    decreases |ls|
  {
    if |ls| == 0 then []
    else
      var l := ls[|ls| - 1];
      ImportOrder(ls[..|ls| - 1]) + (if l.BareImport? || l.ModuleImport? then [l.index] else [])
  }

  lemma {:induction false} ImportOrderAppend(a: seq<StyleLine>, b: seq<StyleLine>)
    ensures ImportOrder(a + b) == ImportOrder(a) + ImportOrder(b)
    decreases |b|
  {
    if |b| == 0 {
      assert a + b == a;
    } else {
      assert (a + b)[..|a + b| - 1] == a + b[..|b| - 1];
      ImportOrderAppend(a, b[..|b| - 1]);
    }
  }

  /** 0, 1, ..., n - 1. */
  function Range(n: nat): (r: seq<nat>)
    ensures |r| == n && forall i :: 0 <= i < n ==> r[i] == i
  {
    if n == 0 then [] else Range(n - 1) + [n - 1]
  }

  lemma ChunkImportOrder(styles: seq<StyleBlock>, i: nat)
    requires i < |styles|
    ensures ImportOrder(Chunk(styles, i)) == [i]
  {
    var c := Chunk(styles, i);
    if IsModule(styles[i]) {
      var reg := [Register(i, ModuleKey(styles[i]))];
      var head := if ModuleBefore(styles, i) then [] else [DeclareModules];
      assert c == head + [ModuleImport(i)] + reg;
      ImportOrderAppend(head + [ModuleImport(i)], reg);
      ImportOrderAppend(head, [ModuleImport(i)]);
    }
  }

  /** Every style is imported exactly once, and the imports follow document
      order: the import statements name styles 0, 1, 2, ... in turn. */
  lemma {:induction false} ImportsInDocumentOrder(styles: seq<StyleBlock>, n: nat)
    requires n <= |styles|
    ensures ImportOrder(LinesUpTo(styles, n)) == Range(n)
    decreases n
  {
    if n > 0 {
      ImportsInDocumentOrder(styles, n - 1);
      ImportOrderAppend(LinesUpTo(styles, n - 1), Chunk(styles, n - 1));
      ChunkImportOrder(styles, n - 1);
    }
  }

  /** The statements of the first n styles: those of the first n - 1, then
      those of style n - 1. */
  lemma LinesUpToStep(styles: seq<StyleBlock>, n: nat)
    requires 0 < n <= |styles|
    ensures LinesUpTo(styles, n) == LinesUpTo(styles, n - 1) + Chunk(styles, n - 1)
  {
  }

  /** How many times the map is declared. */
  function Declarations(ls: seq<StyleLine>): nat
    decreases |ls|
  {
    if |ls| == 0 then 0
    else Declarations(ls[..|ls| - 1]) + (if ls[|ls| - 1] == DeclareModules then 1 else 0)
  }

  lemma {:induction false} DeclarationsAppend(a: seq<StyleLine>, b: seq<StyleLine>)
    ensures Declarations(a + b) == Declarations(a) + Declarations(b)
    decreases |b|
  {
    if |b| == 0 {
      assert a + b == a;
    } else {
      assert (a + b)[..|a + b| - 1] == a + b[..|b| - 1];
      DeclarationsAppend(a, b[..|b| - 1]);
    }
  }

  /** A sequence that declares the map contains the declaration. */
  lemma {:induction false} DeclaredSomewhere(ls: seq<StyleLine>)
    requires Declarations(ls) > 0
    ensures DeclareModules in ls
    decreases |ls|
  {
    var last := ls[|ls| - 1];
    if last != DeclareModules {
      DeclaredSomewhere(ls[..|ls| - 1]);
      assert ls[..|ls| - 1] <= ls;
    }
  }

  lemma ChunkDeclarations(styles: seq<StyleBlock>, i: nat)
    requires i < |styles|
    ensures Declarations(Chunk(styles, i)) == if IsModule(styles[i]) && !ModuleBefore(styles, i) then 1 else 0
  {
    var c := Chunk(styles, i);
    if IsModule(styles[i]) {
      var head := if ModuleBefore(styles, i) then [] else [DeclareModules];
      var uses := [ModuleImport(i), Register(i, ModuleKey(styles[i]))];
      assert c == head + uses;
      assert uses[..1][..0] == [] && uses[..1] == [ModuleImport(i)];
      assert |head| == 1 ==> head[..0] == [];
      DeclarationsAppend(head, uses);
    } else {
      assert c[..0] == [];
    }
  }

  /** Style n - 1 adds a declaration exactly when it is the first
      CSS-modules block: if the first n - 1 styles declare the map once when
      one of them is a CSS-modules block and never otherwise, so do the
      first n. */
  lemma DeclarationsStep(styles: seq<StyleBlock>, n: nat)
    requires 0 < n <= |styles|
    requires Declarations(LinesUpTo(styles, n - 1)) == if ModuleBefore(styles, n - 1) then 1 else 0
    ensures Declarations(LinesUpTo(styles, n)) == if ModuleBefore(styles, n) then 1 else 0
  {
    var prev, c := LinesUpTo(styles, n - 1), Chunk(styles, n - 1);
    ChunkDeclarations(styles, n - 1);
    LinesUpToStep(styles, n);
    DeclarationsAppend(prev, c);
  }

  /** The map declaration is emitted once if some style is a CSS-modules
      block, and never otherwise. */
  lemma {:induction false} DeclaredAtMostOnce(styles: seq<StyleBlock>, n: nat)
    requires n <= |styles|
    ensures Declarations(LinesUpTo(styles, n)) == if ModuleBefore(styles, n) then 1 else 0
    decreases n
  {
    if n == 0 {
      NoneDeclared(styles);
    } else {
      DeclaredAtMostOnce(styles, n - 1);
      DeclarationsStep(styles, n);
    }
  }

  lemma NoneDeclared(styles: seq<StyleBlock>)
    ensures Declarations(LinesUpTo(styles, 0)) == 0 && !ModuleBefore(styles, 0)
  {
    assert LinesUpTo(styles, 0) == [];
  }

  /** Every CSS-modules import and registration in ls comes after a map
      declaration. */
  predicate DeclaredBeforeEachUse(ls: seq<StyleLine>) {
    forall j :: 0 <= j < |ls| && (ls[j].ModuleImport? || ls[j].Register?) ==> DeclareModules in ls[..j]
  }

  /** No statement of ls uses the map. */
  predicate NoUses(ls: seq<StyleLine>) {
    forall j :: 0 <= j < |ls| ==> !ls[j].ModuleImport? && !ls[j].Register?
  }

  /** Appending statements keeps the map declared before each use, when the
      map is declared already, the appended part declares it first, or the
      appended part does not use it. */
  lemma AppendDeclaredBeforeEachUse(prev: seq<StyleLine>, c: seq<StyleLine>)
    requires DeclaredBeforeEachUse(prev)
    requires DeclareModules in prev || NoUses(c) || (|c| > 0 && c[0] == DeclareModules)
    ensures DeclaredBeforeEachUse(prev + c)
  {
    var ls := prev + c;
    forall j | 0 <= j < |ls| && (ls[j].ModuleImport? || ls[j].Register?)
      ensures DeclareModules in ls[..j]
    {
      if j < |prev| {
        assert ls[..j] == prev[..j];
      } else if DeclareModules in prev {
        assert prev == ls[..j][..|prev|];
      } else {
        assert c[j - |prev|] == ls[j];
        assert ls[..j][|prev|] == DeclareModules;
      }
    }
  }

  /** A style's statements use the map only after declaring it, unless an
      earlier style is a CSS-modules block. */
  lemma ChunkDeclaresFirst(styles: seq<StyleBlock>, i: nat)
    requires i < |styles|
    ensures !ModuleBefore(styles, i) ==> NoUses(Chunk(styles, i)) || Chunk(styles, i)[0] == DeclareModules
  {
  }

  /** Either the statements before style i declare the map, or the style's
      own statements declare it before using it, or they do not use it. */
  lemma ChunkMayFollow(styles: seq<StyleBlock>, i: nat)
    requires i < |styles|
    ensures var prev, c := LinesUpTo(styles, i), Chunk(styles, i);
      DeclareModules in prev || NoUses(c) || (|c| > 0 && c[0] == DeclareModules)
  {
    ChunkDeclaresFirst(styles, i);
    if ModuleBefore(styles, i) {
      DeclaredAtMostOnce(styles, i);
      DeclaredSomewhere(LinesUpTo(styles, i));
    }
  }

  /** Every CSS-modules import and registration comes after the map
      declaration. */
  lemma {:induction false} DeclaredBeforeUse(styles: seq<StyleBlock>, n: nat)
    requires n <= |styles|
    ensures DeclaredBeforeEachUse(LinesUpTo(styles, n))
    decreases n
  {
    if n > 0 {
      var prev, c := LinesUpTo(styles, n - 1), Chunk(styles, n - 1);
      DeclaredBeforeUse(styles, n - 1);
      ChunkMayFollow(styles, n - 1);
      AppendDeclaredBeforeEachUse(prev, c);
      LinesUpToStep(styles, n);
    }
  }

  /** What a statement says about the style it names: a bare import for a
      plain style, a bound import for a CSS-modules style, a registration
      under that style's module name. */
  predicate Belongs(styles: seq<StyleBlock>, l: StyleLine) {
    match l
    case DeclareModules => true
    case BareImport(i) => i < |styles| && !IsModule(styles[i])
    case ModuleImport(i) => i < |styles| && IsModule(styles[i])
    case Register(i, key) => i < |styles| && IsModule(styles[i]) && key == ModuleKey(styles[i])
  }

  /** The statements of style i fit style i and name no other style. */
  lemma ChunkBelongs(styles: seq<StyleBlock>, i: nat)
    requires i < |styles|
    ensures forall l :: l in Chunk(styles, i) ==> Belongs(styles, l) && (!l.DeclareModules? ==> l.index == i)
  {
  }

  /** Every statement of the first n styles fits the style it names, which
      is one of the first n. */
  lemma {:induction false} LinesUpToOrigins(styles: seq<StyleBlock>, n: nat)
    requires n <= |styles|
    ensures forall l :: l in LinesUpTo(styles, n) ==> Belongs(styles, l) && (!l.DeclareModules? ==> l.index < n)
    decreases n
  {
    if n > 0 {
      var prev, c := LinesUpTo(styles, n - 1), Chunk(styles, n - 1);
      LinesUpToOrigins(styles, n - 1);
      ChunkBelongs(styles, n - 1);
      assert LinesUpTo(styles, n) == prev + c;
    }
  }

  /** Every statement of the chunk of a style among the first n is emitted. */
  lemma {:induction false} LinesUpToContains(styles: seq<StyleBlock>, n: nat)
    requires n <= |styles|
    ensures forall i, l :: 0 <= i < n && l in Chunk(styles, i) ==> l in LinesUpTo(styles, n)
    decreases n
  {
    if n > 0 {
      var prev, c := LinesUpTo(styles, n - 1), Chunk(styles, n - 1);
      LinesUpToContains(styles, n - 1);
      assert LinesUpTo(styles, n) == prev + c;
      forall i: nat, l: StyleLine | i < n && l in Chunk(styles, i)
        ensures l in prev + c
      {
        if i < n - 1 {
          assert l in prev;
        } else {
          assert l in c;
        }
      }
    }
  }

  /** A plain style yields its bare import; a CSS-modules style yields its
      bound import and a registration under its module name, and nothing
      else names the style. */
  lemma StatementsOfStyle(styles: seq<StyleBlock>, i: nat)
    requires i < |styles|
    ensures BareImport(i) in Lines(styles) <==> !IsModule(styles[i])
    ensures ModuleImport(i) in Lines(styles) <==> IsModule(styles[i])
    ensures forall key :: Register(i, key) in Lines(styles) <==> IsModule(styles[i]) && key == ModuleKey(styles[i])
  {
    LinesUpToOrigins(styles, |styles|);
    LinesUpToContains(styles, |styles|);
    var c := Chunk(styles, i);
    if IsModule(styles[i]) {
      assert ModuleImport(i) in c && Register(i, ModuleKey(styles[i])) in c;
    } else {
      assert BareImport(i) in c;
    }
  }

  /** The local names bound to CSS-modules imports are pairwise distinct. */
  lemma StyleVarsDistinct(i: nat, j: nat)
    requires i != j
    ensures StyleVar(i) != StyleVar(j)
  {
    DecimalInjective(i, j);
    var p := "__style";
    assert (p + Decimal(i))[|p|..] == Decimal(i);
    assert (p + Decimal(j))[|p|..] == Decimal(j);
  }

  /** The statements depend on the `module` attributes only, not on `scoped`. */
  lemma {:induction false} LinesIgnoreScoped(s1: seq<StyleBlock>, s2: seq<StyleBlock>, n: nat)
    requires |s1| == |s2| && n <= |s1|
    requires forall i :: 0 <= i < |s1| ==> s1[i].cssModule == s2[i].cssModule
    ensures ModuleBefore(s1, n) == ModuleBefore(s2, n)
    ensures LinesUpTo(s1, n) == LinesUpTo(s2, n)
    decreases n
  {
    if n > 0 {
      LinesIgnoreScoped(s1, s2, n - 1);
      assert IsModule(s1[n - 1]) == IsModule(s2[n - 1]);
      assert Chunk(s1, n - 1) == Chunk(s2, n - 1);
    }
  }
}
