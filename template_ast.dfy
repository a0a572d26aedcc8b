/** The parts of Angular's template AST that the pipe and directive extractors look at.
    Angular's `parseTemplate` is outside the model: a template is given as the nodes it
    parses into. */
module TemplateAst {
  import opened Wrappers
  import opened JsString
  import opened Utils

  /** Binding expressions. A `LiteralPrimitive` holds `String(value)` of its value (a
      string as written, a number in its decimal form, `true`, `false`, `null`,
      `undefined`); expression kinds no extractor descends into are `OtherAst`. */
  datatype Ast =
    | LiteralPrimitive(value: string)
    | BindingPipe(exp: Ast, name: string, args: seq<Ast>)
    | Interpolation(expressions: seq<Ast>)
    | Conditional(condition: Ast, trueExp: Ast, falseExp: Ast)
    | Binary(operation: string, left: Ast, right: Ast)
    | LiteralMap(keys: seq<string>, values: seq<Ast>)
    | LiteralArray(expressions: seq<Ast>)
    | Call(receiver: Ast, args: seq<Ast>)
    | KeyedRead(receiver: Ast, key: Ast)
    | ParenthesizedExpression(expression: Ast)
    | AstWithSource(ast: Ast)
    | OtherAst(children: seq<Ast>)

  /** `name="value"` on an element. */
  datatype TextAttribute = TextAttribute(name: string, value: string)

  /** `[name]="value"` on an element. */
  datatype BoundAttribute = BoundAttribute(name: string, value: Ast)

  /** An entry of a structural directive's `templateAttrs`. */
  datatype TemplateAttr = PlainTemplateAttr(plain: TextAttribute) | BoundTemplateAttr(bound: BoundAttribute)

  /** Template nodes. `Block` stands for the blocks that only hold children (an `@else`
      branch body, `@empty`, `@error`, `@loading`, `@placeholder`, `@case` and the
      like); `OtherNode` for comments, ICU messages and other leaves. */
  datatype Node =
    | Element(name: string, attributes: seq<TextAttribute>, inputs: seq<BoundAttribute>, children: seq<Node>)
    | Template(tagName: string, attributes: seq<TextAttribute>, inputs: seq<BoundAttribute>, templateAttrs: seq<TemplateAttr>, children: seq<Node>)
    | Text(text: string)
    | BoundText(value: Ast)
    | Block(children: seq<Node>)
    | ForLoopBlock(children: seq<Node>, empty: Option<Node>)
    | DeferredBlock(children: seq<Node>, error: Option<Node>, loading: Option<Node>, placeholder: Option<Node>)
    | IfBlock(branches: seq<Branch>)
    | SwitchBlock(cases: seq<Branch>)
    | OtherNode

  /** An `@if`/`@else` branch or a `@case`; only its children are part of the template. */
  datatype Branch = Branch(children: seq<Node>)

  /** `sub` is `ast` or one of its sub-expressions, at any depth. */
  ghost predicate Within(ast: Ast, sub: Ast) {
    sub == ast ||
    match ast
    case LiteralPrimitive(_) => false
    case BindingPipe(exp, _, args) => Within(exp, sub) || WithinAny(args, sub)
    case Interpolation(expressions) => WithinAny(expressions, sub)
    case Conditional(condition, trueExp, falseExp) => Within(condition, sub) || Within(trueExp, sub) || Within(falseExp, sub)
    case Binary(_, left, right) => Within(left, sub) || Within(right, sub)
    case LiteralMap(_, values) => WithinAny(values, sub)
    case LiteralArray(expressions) => WithinAny(expressions, sub)
    case Call(receiver, args) => Within(receiver, sub) || WithinAny(args, sub)
    case KeyedRead(receiver, key) => Within(receiver, sub) || Within(key, sub)
    case ParenthesizedExpression(expression) => Within(expression, sub)
    case AstWithSource(inner) => Within(inner, sub)
    case OtherAst(children) => WithinAny(children, sub)
  }

  ghost predicate WithinAny(asts: seq<Ast>, sub: Ast) {
    exists i :: 0 <= i < |asts| && Within(asts[i], sub)
  }

  /** Something within the first of a list is within the list. */
  lemma WithinHead(asts: seq<Ast>, sub: Ast)
    requires asts != [] && Within(asts[0], sub)
    ensures WithinAny(asts, sub)
  {
  }

  /** Something within the rest of a list is within the list. */
  lemma WithinTail(asts: seq<Ast>, sub: Ast)
    requires asts != [] && WithinAny(asts[1..], sub)
    ensures WithinAny(asts, sub)
  {
    var i :| 0 <= i < |asts[1..]| && Within(asts[1..][i], sub);
    assert Within(asts[i + 1], sub);
  }

  /** The template source the extractors parse: for a component file (a non-empty path
      classified as TypeScript or JavaScript) only its inline template, otherwise the
      whole contents. */
  function TemplateSource(source: string, filePath: string): (r: string)
    ensures filePath != "" && IsPathAngularComponent(filePath) ==> r == ExtractComponentInlineTemplate(source)
    ensures !(filePath != "" && IsPathAngularComponent(filePath)) ==> r == source
  {
    if filePath != "" && IsPathAngularComponent(filePath) then ExtractComponentInlineTemplate(source) else source
  }

  /** A component file whose first `t` starts `template: '<template>'` has exactly that
      template parsed. */
  lemma ComponentTemplateSource(prefix: string, template: string, rest: string, filePath: string)
    requires 't' !in prefix && '\'' !in template
    requires EndsWith(ToLowerCase(filePath), "js") || Contains(ToLowerCase(filePath), ".ts")
    ensures TemplateSource(prefix + "template: '" + template + "'" + rest, filePath) == template
  {
    InlineTemplateRoundTrip(prefix, template, rest);
  }
}
