/**
 * The parsed single-file-component descriptor, as far as the generator reads
 * it: an optional template block with its `functional` attribute, an
 * optional script block with its `lang` and content, and the style blocks in
 * document order with their `scoped` and `module` attributes. Custom blocks
 * are not read by the generator and are not modelled.
 */
module Sfc {
  import opened JsText

  /** A template attribute value: absent (`undefined`), written bare
      (`true`), or written with a value (a string). */
  datatype AttrValue = Absent | Bare | Valued(text: string)

  /** JavaScript truthiness of an attribute value. */
  predicate AttrTruthy(a: AttrValue) {
    a.Bare? || (a.Valued? && a.text != "")
  }

  datatype TemplateBlock = TemplateBlock(content: string, functional: AttrValue)

  datatype ScriptBlock = ScriptBlock(content: string, lang: Option<string>)

  /** A style's `module` attribute: `boolean | string` (absent is `false`). */
  datatype ModuleAttr = ModuleFlag(on: bool) | ModuleName(name: string)

  datatype StyleBlock = StyleBlock(scoped: bool, cssModule: ModuleAttr)

  datatype Descriptor = Descriptor(
    template: Option<TemplateBlock>,
    script: Option<ScriptBlock>,
    styles: seq<StyleBlock>)

  /** `if (s.module)`: true, or a non-empty name. */
  predicate IsModule(s: StyleBlock) {
    match s.cssModule
    case ModuleFlag(on) => on
    case ModuleName(name) => name != ""
  }

  /** `typeof s.module === 'string' ? s.module : '$style'`. */
  function ModuleKey(s: StyleBlock): string {
    match s.cssModule
    case ModuleName(name) => name
    case ModuleFlag(_) => "$style"
  }

  predicate AnyScoped(styles: seq<StyleBlock>) {
    exists i :: 0 <= i < |styles| && styles[i].scoped
  }

  predicate AnyModule(styles: seq<StyleBlock>) {
    exists i :: 0 <= i < |styles| && IsModule(styles[i])
  }

  /** `descriptor.template && descriptor.template.attrs.functional`, as a
      truth value. */
  predicate HasFunctional(d: Descriptor) {
    d.template.Some? && AttrTruthy(d.template.value.functional)
  }
}
