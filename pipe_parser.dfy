/** `pipe.parser.ts`: keys written as `'key' | translate` (or `| marker`) anywhere in a
    template's bindings. */
module PipeParser {
  import opened Wrappers
  import opened Collections
  import opened TemplateAst

  /** `TRANSLATE_PIPE_NAMES`. */
  const TranslatePipeNames: seq<string> := ["translate", "marker"]

  predicate IsTranslatePipe(ast: Ast) {
    ast.BindingPipe? && ast.name in TranslatePipeNames
  }

  // ---------------------------------------------------------------------------------
  // Traversal

  /** `traverseAstNode(node, visitor, accumulator)`: the visitor's results for the node
      appended to the accumulator, then its children traversed in this order: `children`,
      the `@empty` block of a `@for`, the `@error`, `@loading` and `@placeholder` blocks
      of a `@defer`, the bodies of an `@if`'s branches and of a `@switch`'s cases. */
  function TraverseNode<R>(node: Node, visitor: Node -> seq<R>, accumulator: seq<R>): seq<R> {
    var acc := accumulator + visitor(node);
    match node
    case Element(_, _, _, children) => TraverseNodes(children, visitor, acc)
    case Template(_, _, _, _, children) => TraverseNodes(children, visitor, acc)
    case Block(children) => TraverseNodes(children, visitor, acc)
    case ForLoopBlock(children, empty) => TraverseSlot(empty, visitor, TraverseNodes(children, visitor, acc))
    case DeferredBlock(children, error, loading, placeholder) =>
      TraverseSlot(placeholder, visitor, TraverseSlot(loading, visitor, TraverseSlot(error, visitor, TraverseNodes(children, visitor, acc))))
    case IfBlock(branches) => TraverseBranches(branches, visitor, acc)
    case SwitchBlock(cases) => TraverseBranches(cases, visitor, acc)
    case _ => acc
  }

  /** `traverseAstNodes(nodes, visitor, accumulator)`: each node in turn. */
  function TraverseNodes<R>(nodes: seq<Node>, visitor: Node -> seq<R>, accumulator: seq<R>): seq<R> {
    if nodes == [] then accumulator
    else TraverseNodes(nodes[1..], visitor, TraverseNode(nodes[0], visitor, accumulator))
  }

  /** A slot that may hold no block; an empty slot is skipped. */
  function TraverseSlot<R>(slot: Option<Node>, visitor: Node -> seq<R>, accumulator: seq<R>): seq<R> {
    if slot.Some? then TraverseNode(slot.value, visitor, accumulator) else accumulator
  }

  /** `branches.flatMap((inner) => inner.children)`, traversed. */
  function TraverseBranches<R>(branches: seq<Branch>, visitor: Node -> seq<R>, accumulator: seq<R>): seq<R> {
    if branches == [] then accumulator
    else TraverseBranches(branches[1..], visitor, TraverseNodes(branches[0].children, visitor, accumulator))
  }

  /** The nodes of a template in pre-order: a node, then the nodes below it, in the order
      listed at `TraverseNode`. */
  function Preorder(node: Node): (r: seq<Node>)
    ensures r != [] && r[0] == node
  {
    [node] +
    match node
    case Element(_, _, _, children) => PreorderAll(children)
    case Template(_, _, _, _, children) => PreorderAll(children)
    case Block(children) => PreorderAll(children)
    case ForLoopBlock(children, empty) => PreorderAll(children) + PreorderSlot(empty)
    case DeferredBlock(children, error, loading, placeholder) =>
      PreorderAll(children) + PreorderSlot(error) + PreorderSlot(loading) + PreorderSlot(placeholder)
    case IfBlock(branches) => PreorderBranches(branches)
    case SwitchBlock(cases) => PreorderBranches(cases)
    case _ => []
  }

  function PreorderAll(nodes: seq<Node>): seq<Node> {
    if nodes == [] then [] else Preorder(nodes[0]) + PreorderAll(nodes[1..])
  }

  function PreorderSlot(slot: Option<Node>): seq<Node> {
    if slot.Some? then Preorder(slot.value) else []
  }

  function PreorderBranches(branches: seq<Branch>): seq<Node> {
    if branches == [] then [] else PreorderAll(branches[0].children) + PreorderBranches(branches[1..])
  }

  /** The visitor's results for each node, concatenated. */
  function FlatMap<R>(nodes: seq<Node>, visitor: Node -> seq<R>): seq<R> {
    if nodes == [] then [] else visitor(nodes[0]) + FlatMap(nodes[1..], visitor)
  }

  lemma {:induction false} FlatMapAppend<R>(a: seq<Node>, b: seq<Node>, visitor: Node -> seq<R>)
    ensures FlatMap(a + b, visitor) == FlatMap(a, visitor) + FlatMap(b, visitor)
  {
    if a == [] {
      assert a + b == b;
    } else {
      assert (a + b)[1..] == a[1..] + b;
      FlatMapAppend(a[1..], b, visitor);
    }
  }

  /** The traversal appends to the accumulator the visitor's results for every node in
      pre-order: a node's own results come before those of the nodes below it. */
  lemma {:induction false} TraverseNodeSpec<R>(node: Node, visitor: Node -> seq<R>, accumulator: seq<R>)
    ensures TraverseNode(node, visitor, accumulator) == accumulator + FlatMap(Preorder(node), visitor)
    decreases node, 1
  {
    var acc := accumulator + visitor(node);
    assert FlatMap(Preorder(node), visitor) == visitor(node) + FlatMap(Preorder(node)[1..], visitor);
    match node
    case Element(_, _, _, children) =>
      TraverseNodesSpec(children, visitor, acc);
    case Template(_, _, _, _, children) =>
      TraverseNodesSpec(children, visitor, acc);
    case Block(children) =>
      TraverseNodesSpec(children, visitor, acc);
    case ForLoopBlock(children, empty) =>
      TraverseForSpec(children, empty, visitor, acc);
    case DeferredBlock(children, error, loading, placeholder) =>
      TraverseDeferredSpec(children, error, loading, placeholder, visitor, acc);
    case IfBlock(branches) =>
      TraverseBranchesSpec(branches, visitor, acc);
    case SwitchBlock(cases) =>
      TraverseBranchesSpec(cases, visitor, acc);
    case _ =>
  }

  /** The body of a `@for`, then its `@empty` block. */
  lemma {:induction false} TraverseForSpec<R>(children: seq<Node>, empty: Option<Node>, visitor: Node -> seq<R>, acc: seq<R>)
    ensures TraverseSlot(empty, visitor, TraverseNodes(children, visitor, acc))
      == acc + FlatMap(PreorderAll(children) + PreorderSlot(empty), visitor)
    decreases ForLoopBlock(children, empty), 0
  {
    var a1 := TraverseNodes(children, visitor, acc);
    calc {
      TraverseSlot(empty, visitor, a1);
      { TraverseSlotSpec(empty, visitor, a1); }
      a1 + FlatMap(PreorderSlot(empty), visitor);
      { TraverseNodesSpec(children, visitor, acc); }
      acc + FlatMap(PreorderAll(children), visitor) + FlatMap(PreorderSlot(empty), visitor);
      { FlatMapAppend(PreorderAll(children), PreorderSlot(empty), visitor); }
      acc + FlatMap(PreorderAll(children) + PreorderSlot(empty), visitor);
    }
  }

  /** The main block of a `@defer`, then its `@error`, `@loading` and `@placeholder`
      blocks. */
  lemma {:induction false} TraverseDeferredSpec<R>(children: seq<Node>, error: Option<Node>, loading: Option<Node>, placeholder: Option<Node>,
                                                  visitor: Node -> seq<R>, acc: seq<R>)
    ensures TraverseSlot(placeholder, visitor, TraverseSlot(loading, visitor, TraverseSlot(error, visitor, TraverseNodes(children, visitor, acc))))
      == acc + FlatMap(PreorderAll(children) + PreorderSlot(error) + PreorderSlot(loading) + PreorderSlot(placeholder), visitor)
    decreases DeferredBlock(children, error, loading, placeholder), 0
  {
    var a1 := TraverseNodes(children, visitor, acc);
    var a2 := TraverseSlot(error, visitor, a1);
    var a3 := TraverseSlot(loading, visitor, a2);
    var c, e, l, p := PreorderAll(children), PreorderSlot(error), PreorderSlot(loading), PreorderSlot(placeholder);
    calc {
      TraverseSlot(placeholder, visitor, a3);
      { TraverseSlotSpec(placeholder, visitor, a3); }
      a3 + FlatMap(p, visitor);
      { TraverseSlotSpec(loading, visitor, a2); }
      a2 + FlatMap(l, visitor) + FlatMap(p, visitor);
      { TraverseSlotSpec(error, visitor, a1); }
      a1 + FlatMap(e, visitor) + FlatMap(l, visitor) + FlatMap(p, visitor);
      { TraverseNodesSpec(children, visitor, acc); }
      acc + FlatMap(c, visitor) + FlatMap(e, visitor) + FlatMap(l, visitor) + FlatMap(p, visitor);
      { FlatMapAppend3(acc, c, e, l, p, visitor); }
      acc + FlatMap(c + e + l + p, visitor);
    }
  }

  lemma FlatMapAppend3<R>(acc: seq<R>, c: seq<Node>, e: seq<Node>, l: seq<Node>, p: seq<Node>, visitor: Node -> seq<R>)
    ensures acc + FlatMap(c, visitor) + FlatMap(e, visitor) + FlatMap(l, visitor) + FlatMap(p, visitor) == acc + FlatMap(c + e + l + p, visitor)
  {
    var fc, fe, fl, fp := FlatMap(c, visitor), FlatMap(e, visitor), FlatMap(l, visitor), FlatMap(p, visitor);
    calc {
      acc + fc + fe + fl + fp;
      acc + (fc + fe + fl + fp);
      { FlatMapAppend(c, e, visitor); FlatMapAppend(c + e, l, visitor); FlatMapAppend(c + e + l, p, visitor); }
      acc + FlatMap(c + e + l + p, visitor);
    }
  }

  lemma {:induction false} TraverseNodesSpec<R>(nodes: seq<Node>, visitor: Node -> seq<R>, accumulator: seq<R>)
    ensures TraverseNodes(nodes, visitor, accumulator) == accumulator + FlatMap(PreorderAll(nodes), visitor)
  {
    if nodes != [] {
      TraverseNodeSpec(nodes[0], visitor, accumulator);
      TraverseNodesSpec(nodes[1..], visitor, TraverseNode(nodes[0], visitor, accumulator));
      FlatMapAppend(Preorder(nodes[0]), PreorderAll(nodes[1..]), visitor);
    }
  }

  lemma {:induction false} TraverseSlotSpec<R>(slot: Option<Node>, visitor: Node -> seq<R>, accumulator: seq<R>)
    ensures TraverseSlot(slot, visitor, accumulator) == accumulator + FlatMap(PreorderSlot(slot), visitor)
  {
    if slot.Some? {
      TraverseNodeSpec(slot.value, visitor, accumulator);
    }
  }

  lemma {:induction false} TraverseBranchesSpec<R>(branches: seq<Branch>, visitor: Node -> seq<R>, accumulator: seq<R>)
    ensures TraverseBranches(branches, visitor, accumulator) == accumulator + FlatMap(PreorderBranches(branches), visitor)
  {
    if branches != [] {
      TraverseNodesSpec(branches[0].children, visitor, accumulator);
      TraverseBranchesSpec(branches[1..], visitor, TraverseNodes(branches[0].children, visitor, accumulator));
      FlatMapAppend(PreorderAll(branches[0].children), PreorderBranches(branches[1..]), visitor);
    }
  }

  // ---------------------------------------------------------------------------------
  // Pipes in expressions

  /** `getTranslatablesFromAst`: the translate pipes in an expression. A translate pipe
      is reported, followed by the translate pipes in its arguments; any other pipe is
      not, but its subject and arguments are searched; interpolations, both branches of
      a conditional, both operands of a binary expression, object-literal values, array
      elements, call arguments, a keyed read's receiver and key and a parenthesised
      expression are searched too, and nothing else. */
  function GetTranslatablesFromAst(ast: Ast): (r: seq<Ast>)
    ensures forall i :: 0 <= i < |r| ==> IsTranslatePipe(r[i]) && Within(ast, r[i])
    ensures IsTranslatePipe(ast) ==> r != [] && r[0] == ast
    ensures ast.LiteralPrimitive? || ast.AstWithSource? || ast.OtherAst? ==> r == []
  {
    match ast
    case BindingPipe(exp, name, args) =>
      if name in TranslatePipeNames then [ast] + GetTranslatablesFromAsts(args)
      else GetTranslatablesFromAst(exp) + GetTranslatablesFromAsts(args)
    case Interpolation(expressions) => GetTranslatablesFromAsts(expressions)
    case Conditional(_, trueExp, falseExp) => GetTranslatablesFromAst(trueExp) + GetTranslatablesFromAst(falseExp)
    case Binary(_, left, right) => GetTranslatablesFromAst(left) + GetTranslatablesFromAst(right)
    case LiteralMap(_, values) => GetTranslatablesFromAsts(values)
    case LiteralArray(expressions) => GetTranslatablesFromAsts(expressions)
    case Call(_, args) => GetTranslatablesFromAsts(args)
    case KeyedRead(receiver, key) => GetTranslatablesFromAst(receiver) + GetTranslatablesFromAst(key)
    case ParenthesizedExpression(expression) => GetTranslatablesFromAst(expression)
    case _ => []
  }

  /** `getTranslatablesFromAsts`: the results for each expression, concatenated. */
  function GetTranslatablesFromAsts(asts: seq<Ast>): (r: seq<Ast>)
    ensures forall i :: 0 <= i < |r| ==> IsTranslatePipe(r[i]) && WithinAny(asts, r[i])
  {
    if asts == [] then []
    else
      var head, tail := GetTranslatablesFromAst(asts[0]), GetTranslatablesFromAsts(asts[1..]);
      assert forall x :: x in head ==> WithinAny(asts, x) by {
        forall x | x in head ensures WithinAny(asts, x) {
          WithinHead(asts, x);
        }
      }
      assert forall x :: x in tail ==> WithinAny(asts, x) by {
        forall x | x in tail ensures WithinAny(asts, x) {
          WithinTail(asts, x);
        }
      }
      head + tail
  }

  /** `sub` is in a position `getTranslatablesFromAst` looks at: the expression itself;
      below a translate pipe only its arguments; below any other pipe its subject and
      its arguments; interpolated expressions, the branches of a conditional (not its
      condition), both operands of a binary expression, object-literal values, array
      elements, call arguments (not the receiver), a keyed read's receiver and key and
      a parenthesised expression. */
  ghost predicate Searched(ast: Ast, sub: Ast) {
    sub == ast ||
    match ast
    case BindingPipe(exp, name, args) => (name !in TranslatePipeNames && Searched(exp, sub)) || SearchedAny(args, sub)
    case Interpolation(expressions) => SearchedAny(expressions, sub)
    case Conditional(_, trueExp, falseExp) => Searched(trueExp, sub) || Searched(falseExp, sub)
    case Binary(_, left, right) => Searched(left, sub) || Searched(right, sub)
    case LiteralMap(_, values) => SearchedAny(values, sub)
    case LiteralArray(expressions) => SearchedAny(expressions, sub)
    case Call(_, args) => SearchedAny(args, sub)
    case KeyedRead(receiver, key) => Searched(receiver, sub) || Searched(key, sub)
    case ParenthesizedExpression(expression) => Searched(expression, sub)
    case _ => false
  }

  ghost predicate SearchedAny(asts: seq<Ast>, sub: Ast) {
    exists i :: 0 <= i < |asts| && Searched(asts[i], sub)
  }

  /** A pipe is reported exactly when it is a translate pipe in a searched position. */
  lemma {:induction false} TranslatablesFound(ast: Ast, x: Ast)
    ensures x in GetTranslatablesFromAst(ast) <==> IsTranslatePipe(x) && Searched(ast, x)
  {
    match ast
    case BindingPipe(exp, name, args) =>
      TranslatablesFoundAll(args, x);
      if name !in TranslatePipeNames {
        TranslatablesFound(exp, x);
      }
    case Interpolation(expressions) => TranslatablesFoundAll(expressions, x);
    case Conditional(_, trueExp, falseExp) =>
      TranslatablesFound(trueExp, x);
      TranslatablesFound(falseExp, x);
    case Binary(_, left, right) =>
      TranslatablesFound(left, x);
      TranslatablesFound(right, x);
    case LiteralMap(_, values) => TranslatablesFoundAll(values, x);
    case LiteralArray(expressions) => TranslatablesFoundAll(expressions, x);
    case Call(_, args) => TranslatablesFoundAll(args, x);
    case KeyedRead(receiver, key) =>
      TranslatablesFound(receiver, x);
      TranslatablesFound(key, x);
    case ParenthesizedExpression(expression) => TranslatablesFound(expression, x);
    case _ =>
  }

  lemma {:induction false} TranslatablesFoundAll(asts: seq<Ast>, x: Ast)
    ensures x in GetTranslatablesFromAsts(asts) <==> IsTranslatePipe(x) && SearchedAny(asts, x)
  {
    if asts != [] {
      TranslatablesFound(asts[0], x);
      TranslatablesFoundAll(asts[1..], x);
      if SearchedAny(asts, x) {
        var i :| 0 <= i < |asts| && Searched(asts[i], x);
        if i > 0 {
          assert Searched(asts[1..][i - 1], x);
        }
      }
      if SearchedAny(asts[1..], x) {
        var i :| 0 <= i < |asts[1..]| && Searched(asts[1..][i], x);
        assert Searched(asts[i + 1], x);
      }
    }
  }

  /** The pipes of a list of expressions are those of each expression in turn, in order
      and with repetitions. */
  lemma {:induction false} GetTranslatablesFromAstsAppend(a: seq<Ast>, b: seq<Ast>)
    ensures GetTranslatablesFromAsts(a + b) == GetTranslatablesFromAsts(a) + GetTranslatablesFromAsts(b)
  {
    if a == [] {
      assert a + b == b;
    } else {
      assert (a + b)[0] == a[0];
      assert (a + b)[1..] == a[1..] + b;
      GetTranslatablesFromAstsAppend(a[1..], b);
    }
  }

  /** `parseTranslationKeysFromPipe`: the keys a reported pipe stands for. A literal gives
      its value; a conditional gives the keys of both branches; a pipe or a parenthesised
      expression gives the keys of what it wraps; anything else, a variable or a
      concatenation among them, gives none. */
  function ParseTranslationKeysFromPipe(pipeContent: Ast): (r: seq<string>)
    ensures forall i :: 0 <= i < |r| ==> Within(pipeContent, LiteralPrimitive(r[i]))
    ensures pipeContent.LiteralPrimitive? ==> r == [pipeContent.value]
    ensures !(pipeContent.LiteralPrimitive? || pipeContent.Conditional? || pipeContent.BindingPipe? || pipeContent.ParenthesizedExpression?) ==> r == []
  {
    match pipeContent
    case LiteralPrimitive(value) => [value]
    case Conditional(_, trueExp, falseExp) => ParseTranslationKeysFromPipe(trueExp) + ParseTranslationKeysFromPipe(falseExp)
    case BindingPipe(exp, _, _) => ParseTranslationKeysFromPipe(exp)
    case ParenthesizedExpression(expression) => ParseTranslationKeysFromPipe(expression)
    case _ => []
  }

  /** `v` is a literal `parseTranslationKeysFromPipe` reaches: through the branches of
      conditionals (not their conditions), the subjects of pipes (not their arguments)
      and parenthesised expressions. */
  ghost predicate KeyIn(ast: Ast, v: string) {
    match ast
    case LiteralPrimitive(value) => value == v
    case Conditional(_, trueExp, falseExp) => KeyIn(trueExp, v) || KeyIn(falseExp, v)
    case BindingPipe(exp, _, _) => KeyIn(exp, v)
    case ParenthesizedExpression(expression) => KeyIn(expression, v)
    case _ => false
  }

  /** A key is returned exactly when it is a literal reached that way. */
  lemma {:induction false} PipeKeysFound(ast: Ast, v: string)
    ensures v in ParseTranslationKeysFromPipe(ast) <==> KeyIn(ast, v)
  {
    match ast
    case Conditional(_, trueExp, falseExp) =>
      PipeKeysFound(trueExp, v);
      PipeKeysFound(falseExp, v);
    case BindingPipe(exp, _, _) => PipeKeysFound(exp, v);
    case ParenthesizedExpression(expression) => PipeKeysFound(expression, v);
    case _ =>
  }

  /** The keys of a conditional are those of its true branch followed by those of its
      false branch; a pipe and a parenthesised expression stand for what they wrap. */
  lemma PipeKeysNested(condition: Ast, trueExp: Ast, falseExp: Ast, name: string, args: seq<Ast>)
    ensures ParseTranslationKeysFromPipe(Conditional(condition, trueExp, falseExp))
      == ParseTranslationKeysFromPipe(trueExp) + ParseTranslationKeysFromPipe(falseExp)
    ensures ParseTranslationKeysFromPipe(BindingPipe(trueExp, name, args)) == ParseTranslationKeysFromPipe(trueExp)
    ensures ParseTranslationKeysFromPipe(ParenthesizedExpression(trueExp)) == ParseTranslationKeysFromPipe(trueExp)
  {
  }

  // ---------------------------------------------------------------------------------
  // Pipes in template nodes

  /** An entry of `findPipesInNode`'s result: a translate pipe, or a `translate` or
      `marker` text attribute, which the same array receives. */
  datatype Translatable = PipeNode(pipe: Ast) | AttributeNode(attribute: TextAttribute)

  /** Only translate pipes and `translate`/`marker` attributes are found. */
  ghost predicate Reported(ts: seq<Translatable>) {
    forall i :: 0 <= i < |ts| ==>
      (ts[i].PipeNode? ==> IsTranslatePipe(ts[i].pipe))
      && (ts[i].AttributeNode? ==> ts[i].attribute.name in TranslatePipeNames)
  }

  function PipeNodes(pipes: seq<Ast>): (r: seq<Translatable>)
    ensures |r| == |pipes|
    ensures forall i :: 0 <= i < |r| ==> r[i] == PipeNode(pipes[i])
  {
    seq(|pipes|, i requires 0 <= i < |pipes| => PipeNode(pipes[i]))
  }

  /** `node.value.ast` when the node's value is an `ASTWithSource`. */
  function ValueAst(node: Node): Option<Ast> {
    if node.BoundText? && node.value.AstWithSource? then Some(node.value.ast) else None
  }

  /** `node.attributes` on the nodes that have them. */
  function AttributesOf(node: Node): Option<seq<TextAttribute>> {
    if node.Element? || node.Template? then Some(node.attributes) else None
  }

  function InputsOf(node: Node): seq<BoundAttribute> {
    if node.Element? || node.Template? then node.inputs else []
  }

  function TemplateAttrsOf(node: Node): seq<TemplateAttr> {
    if node.Template? then node.templateAttrs else []
  }

  /** The attributes named `translate` or `marker`, in order. */
  function TranslateAttributes(attributes: seq<TextAttribute>): (r: seq<Translatable>)
    ensures Reported(r)
    ensures |r| <= |attributes|
  {
    if attributes == [] then []
    else
      (if attributes[0].name in TranslatePipeNames then [AttributeNode(attributes[0])] else [])
      + TranslateAttributes(attributes[1..])
  }

  /** The translate pipes in the inputs whose value is an `ASTWithSource`. */
  function InputTranslatables(inputs: seq<BoundAttribute>): (r: seq<Translatable>)
    ensures Reported(r)
  {
    if inputs == [] then []
    else
      (if inputs[0].value.AstWithSource? then PipeNodes(GetTranslatablesFromAst(inputs[0].value.ast)) else [])
      + InputTranslatables(inputs[1..])
  }

  /** The translate pipes in the bound template attributes whose value is an
      `ASTWithSource`; a plain attribute's value is a string and is passed over. */
  function TemplateAttrTranslatables(attrs: seq<TemplateAttr>): (r: seq<Translatable>)
    ensures Reported(r)
  {
    if attrs == [] then []
    else
      (if attrs[0].BoundTemplateAttr? && attrs[0].bound.value.AstWithSource?
       then PipeNodes(GetTranslatablesFromAst(attrs[0].bound.value.ast)) else [])
      + TemplateAttrTranslatables(attrs[1..])
  }

  /** `findPipesInNode`: the translate pipes in the node's own value, then (after the
      entries found so far a second time) its `translate`/`marker` attributes, then the
      translate pipes in its inputs and in its template attributes. */
  function FindPipesInNode(node: Node): (r: seq<Translatable>)
    ensures Reported(r)
  {
    var fromValue := if ValueAst(node).Some? then PipeNodes(GetTranslatablesFromAst(ValueAst(node).value)) else [];
    var withAttributes := if AttributesOf(node).Some? then fromValue + fromValue + TranslateAttributes(AttributesOf(node).value) else fromValue;
    withAttributes + InputTranslatables(InputsOf(node)) + TemplateAttrTranslatables(TemplateAttrsOf(node))
  }

  /** The unwrapped values of the inputs that hold an `ASTWithSource`, in order. */
  function InputAsts(inputs: seq<BoundAttribute>): seq<Ast> {
    if inputs == [] then []
    else (if inputs[0].value.AstWithSource? then [inputs[0].value.ast] else []) + InputAsts(inputs[1..])
  }

  /** The unwrapped values of the bound template attributes that hold an
      `ASTWithSource`, in order. */
  function TemplateAttrAsts(attrs: seq<TemplateAttr>): seq<Ast> {
    if attrs == [] then []
    else
      (if attrs[0].BoundTemplateAttr? && attrs[0].bound.value.AstWithSource? then [attrs[0].bound.value.ast] else [])
      + TemplateAttrAsts(attrs[1..])
  }

  /** The expressions `findPipesInNode` searches: the node's own value, its inputs'
      values and its template attributes' values, each when it is an `ASTWithSource`. */
  function NodeAsts(node: Node): seq<Ast> {
    (if ValueAst(node).Some? then [ValueAst(node).value] else [])
    + InputAsts(InputsOf(node)) + TemplateAttrAsts(TemplateAttrsOf(node))
  }

  lemma PipeNodesAppend(a: seq<Ast>, b: seq<Ast>)
    ensures PipeNodes(a + b) == PipeNodes(a) + PipeNodes(b)
  {
    assert forall i :: 0 <= i < |a + b| ==> PipeNodes(a + b)[i] == (PipeNodes(a) + PipeNodes(b))[i];
  }

  lemma PipeNodesMembers(pipes: seq<Ast>, t: Translatable)
    ensures t in PipeNodes(pipes) <==> t.PipeNode? && t.pipe in pipes
  {
    if t.PipeNode? && t.pipe in pipes {
      var i :| 0 <= i < |pipes| && pipes[i] == t.pipe;
      assert PipeNodes(pipes)[i] == t;
    }
  }

  /** One expression searched alone gives its own pipes. */
  lemma GetTranslatablesFromOne(ast: Ast)
    ensures GetTranslatablesFromAsts([ast]) == GetTranslatablesFromAst(ast)
  {
    assert [ast][1..] == [];
  }

  lemma {:induction false} InputTranslatablesAsts(inputs: seq<BoundAttribute>)
    ensures InputTranslatables(inputs) == PipeNodes(GetTranslatablesFromAsts(InputAsts(inputs)))
  {
    if inputs != [] {
      InputTranslatablesAsts(inputs[1..]);
      var head := if inputs[0].value.AstWithSource? then [inputs[0].value.ast] else [];
      var tail := InputAsts(inputs[1..]);
      GetTranslatablesFromAstsAppend(head, tail);
      PipeNodesAppend(GetTranslatablesFromAsts(head), GetTranslatablesFromAsts(tail));
      if head != [] {
        GetTranslatablesFromOne(head[0]);
      }
    }
  }

  lemma {:induction false} TemplateAttrTranslatablesAsts(attrs: seq<TemplateAttr>)
    ensures TemplateAttrTranslatables(attrs) == PipeNodes(GetTranslatablesFromAsts(TemplateAttrAsts(attrs)))
  {
    if attrs != [] {
      TemplateAttrTranslatablesAsts(attrs[1..]);
      var head := if attrs[0].BoundTemplateAttr? && attrs[0].bound.value.AstWithSource? then [attrs[0].bound.value.ast] else [];
      var tail := TemplateAttrAsts(attrs[1..]);
      GetTranslatablesFromAstsAppend(head, tail);
      PipeNodesAppend(GetTranslatablesFromAsts(head), GetTranslatablesFromAsts(tail));
      if head != [] {
        GetTranslatablesFromOne(head[0]);
      }
    }
  }

  lemma {:induction false} TranslateAttributesMembers(attributes: seq<TextAttribute>, t: Translatable)
    ensures t in TranslateAttributes(attributes) <==>
      t.AttributeNode? && t.attribute in attributes && t.attribute.name in TranslatePipeNames
  {
    if attributes != [] {
      TranslateAttributesMembers(attributes[1..], t);
      assert t.AttributeNode? ==> (t.attribute in attributes <==> t.attribute == attributes[0] || t.attribute in attributes[1..]);
    }
  }

  /** `findPipesInNode` reports a pipe exactly when it is a translate pipe in a searched
      position of one of the node's expressions. */
  lemma PipesInNodeFound(node: Node, p: Ast)
    ensures PipeNode(p) in FindPipesInNode(node) <==> IsTranslatePipe(p) && SearchedAny(NodeAsts(node), p)
  {
    var v := if ValueAst(node).Some? then [ValueAst(node).value] else [];
    var ins, tas := InputAsts(InputsOf(node)), TemplateAttrAsts(TemplateAttrsOf(node));
    var t := PipeNode(p);
    GetTranslatablesFromAstsAppend(v + ins, tas);
    GetTranslatablesFromAstsAppend(v, ins);
    if v != [] {
      GetTranslatablesFromOne(v[0]);
    }
    InputTranslatablesAsts(InputsOf(node));
    TemplateAttrTranslatablesAsts(TemplateAttrsOf(node));
    PipeNodesMembers(GetTranslatablesFromAsts(v), t);
    PipeNodesMembers(GetTranslatablesFromAsts(ins), t);
    PipeNodesMembers(GetTranslatablesFromAsts(tas), t);
    if AttributesOf(node).Some? {
      TranslateAttributesMembers(AttributesOf(node).value, t);
    }
    TranslatablesFoundAll(v + ins + tas, p);
  }

  /** `findPipesInNode` reports an attribute exactly when it is one of the node's
      attributes named `translate` or `marker`. */
  lemma AttributesInNodeFound(node: Node, a: TextAttribute)
    ensures AttributeNode(a) in FindPipesInNode(node) <==>
      AttributesOf(node).Some? && a in AttributesOf(node).value && a.name in TranslatePipeNames
  {
    var t := AttributeNode(a);
    var fromValue := if ValueAst(node).Some? then PipeNodes(GetTranslatablesFromAst(ValueAst(node).value)) else [];
    if ValueAst(node).Some? {
      PipeNodesMembers(GetTranslatablesFromAst(ValueAst(node).value), t);
    }
    InputTranslatablesAsts(InputsOf(node));
    TemplateAttrTranslatablesAsts(TemplateAttrsOf(node));
    PipeNodesMembers(GetTranslatablesFromAsts(InputAsts(InputsOf(node))), t);
    PipeNodesMembers(GetTranslatablesFromAsts(TemplateAttrAsts(TemplateAttrsOf(node))), t);
    if AttributesOf(node).Some? {
      TranslateAttributesMembers(AttributesOf(node).value, t);
    }
  }

  /** The keys an entry of `findPipesInNode` stands for; an attribute is not an
      expression and stands for none. */
  function TranslatableKeys(t: Translatable): (r: seq<string>)
    ensures t.PipeNode? ==> forall i :: 0 <= i < |r| ==> Within(t.pipe, LiteralPrimitive(r[i]))
    ensures t.AttributeNode? ==> r == []
  {
    if t.PipeNode? then ParseTranslationKeysFromPipe(t.pipe) else []
  }

  /** The keys of a run of entries, in order. */
  function AllKeys(ts: seq<Translatable>): seq<string> {
    if ts == [] then [] else TranslatableKeys(ts[0]) + AllKeys(ts[1..])
  }

  lemma {:induction false} AllKeysAppend(a: seq<Translatable>, b: seq<Translatable>)
    ensures AllKeys(a + b) == AllKeys(a) + AllKeys(b)
  {
    if a == [] {
      assert a + b == b;
    } else {
      assert (a + b)[0] == a[0];
      assert (a + b)[1..] == a[1..] + b;
      AllKeysAppend(a[1..], b);
    }
  }

  /** A key is extracted from a run of entries exactly when one of them stands for it. */
  lemma {:induction false} AllKeysFound(ts: seq<Translatable>, k: string)
    ensures k in AllKeys(ts) <==> exists j :: 0 <= j < |ts| && k in TranslatableKeys(ts[j])
  {
    if ts != [] {
      AllKeysFound(ts[1..], k);
      if exists j :: 0 <= j < |ts| && k in TranslatableKeys(ts[j]) {
        var j :| 0 <= j < |ts| && k in TranslatableKeys(ts[j]);
        if j > 0 {
          assert k in TranslatableKeys(ts[1..][j - 1]);
        }
      }
      if exists j :: 0 <= j < |ts[1..]| && k in TranslatableKeys(ts[1..][j]) {
        var j :| 0 <= j < |ts[1..]| && k in TranslatableKeys(ts[1..][j]);
        assert k in TranslatableKeys(ts[j + 1]);
      }
    }
  }

  lemma {:induction false} FlatMapMembers<R>(nodes: seq<Node>, visitor: Node -> seq<R>, x: R)
    ensures x in FlatMap(nodes, visitor) <==> exists n :: n in nodes && x in visitor(n)
  {
    if nodes != [] {
      FlatMapMembers(nodes[1..], visitor, x);
      assert forall n :: n in nodes <==> n == nodes[0] || n in nodes[1..];
    }
  }

  /** `n` is a node the traversal of `nodes` reaches, holding in a searched position of
      one of its expressions the translate pipe `p`, whose content reaches the literal `k`. */
  ghost predicate MarkedVia(nodes: seq<Node>, n: Node, p: Ast, k: string) {
    n in PreorderAll(nodes) && IsTranslatePipe(p) && SearchedAny(NodeAsts(n), p) && KeyIn(p, k)
  }

  /** The keys of a template: `k` is extracted exactly when some node and pipe mark it. */
  lemma TemplateKeysFound(nodes: seq<Node>, k: string)
    ensures k in AllKeys(TemplatePipes(nodes)) <==> exists n, p :: MarkedVia(nodes, n, p, k)
  {
    if k in AllKeys(TemplatePipes(nodes)) {
      var n, p := TemplateKeySource(nodes, k);
    }
    forall n, p | MarkedVia(nodes, n, p, k)
      ensures k in AllKeys(TemplatePipes(nodes))
    {
      TemplateKeyExtracted(nodes, n, p, k);
    }
  }

  lemma TemplateKeySource(nodes: seq<Node>, k: string) returns (n: Node, p: Ast)
    requires k in AllKeys(TemplatePipes(nodes))
    ensures MarkedVia(nodes, n, p, k)
  {
    var ts := TemplatePipes(nodes);
    AllKeysFound(ts, k);
    var j :| 0 <= j < |ts| && k in TranslatableKeys(ts[j]);
    var t := ts[j];
    assert t.PipeNode?;
    p := t.pipe;
    FlatMapMembers(PreorderAll(nodes), FindPipesInNode, t);
    n :| n in PreorderAll(nodes) && t in FindPipesInNode(n);
    PipesInNodeFound(n, p);
    PipeKeysFound(p, k);
  }

  lemma TemplateKeyExtracted(nodes: seq<Node>, n: Node, p: Ast, k: string)
    requires MarkedVia(nodes, n, p, k)
    ensures k in AllKeys(TemplatePipes(nodes))
  {
    var ts := TemplatePipes(nodes);
    PipesInNodeFound(n, p);
    FlatMapMembers(PreorderAll(nodes), FindPipesInNode, PipeNode(p));
    PipeKeysFound(p, k);
    var j :| 0 <= j < |ts| && ts[j] == PipeNode(p);
    assert k in TranslatableKeys(ts[j]);
    AllKeysFound(ts, k);
  }

  lemma AllKeysAt(ts: seq<Translatable>, i: nat)
    requires i < |ts|
    ensures AllKeys(ts[i..]) == TranslatableKeys(ts[i]) + AllKeys(ts[i + 1..])
  {
    assert ts[i..][1..] == ts[i + 1..];
  }

  /** The pipes of a whole template: `traverseAstNodes(nodes, findPipesInNode)`. */
  function TemplatePipes(nodes: seq<Node>): (r: seq<Translatable>)
    ensures r == FlatMap(PreorderAll(nodes), FindPipesInNode)
  {
    TraverseNodesSpec(nodes, FindPipesInNode, []);
    TraverseNodes(nodes, FindPipesInNode, [])
  }

  /** The collection `extract(source, filePath)` returns: every key of every pipe found,
      in order, added with the value `''` and the file path as source file. `parse` stands
      for Angular's `parseTemplate`. */
  function Extracted(source: string, filePath: string, parse: (string, string) -> seq<Node>): TranslationCollection {
    AddEach(Empty(), AllKeys(TemplatePipes(parse(TemplateSource(source, filePath), filePath))), Some(""), Some(filePath))
  }

  method Extract(source: string, filePath: string, parse: (string, string) -> seq<Node>) returns (r: TranslationCollection)
    ensures r == Extracted(source, filePath, parse)
  {
    var template := TemplateSource(source, filePath);
    var collection: TranslationCollection := Empty();
    var nodes := parse(template, filePath);
    var pipes := TemplatePipes(nodes);
    ghost var target := AddEach(Empty(), AllKeys(pipes), Some(""), Some(filePath));
    assert pipes[0..] == pipes;
    var i := 0;
    while i < |pipes|
      invariant 0 <= i <= |pipes|
      invariant AddEach(collection, AllKeys(pipes[i..]), Some(""), Some(filePath)) == target
    {
      var keys := TranslatableKeys(pipes[i]);
      AllKeysAt(pipes, i);
      AddEachAppend(collection, keys, AllKeys(pipes[i + 1..]), Some(""), Some(filePath));
      collection := AddEachKey(collection, keys, filePath);
      i := i + 1;
    }
    assert pipes[i..] == [];
    r := collection;
  }

  /** The inner `forEach` of `extract`: `add(key, '', filePath)` for each key in turn. */
  method AddEachKey(c: TranslationCollection, keys: seq<string>, filePath: string) returns (r: TranslationCollection)
    ensures r == AddEach(c, keys, Some(""), Some(filePath))
  {
    var collection := c;
    var j := 0;
    assert keys[0..] == keys;
    while j < |keys|
      invariant 0 <= j <= |keys|
      invariant AddEach(collection, keys[j..], Some(""), Some(filePath)) == AddEach(c, keys, Some(""), Some(filePath))
    {
      AddEachAt(collection, keys, j, Some(""), Some(filePath));
      collection := Add(collection, keys[j], Some(""), Some(filePath));
      j := j + 1;
    }
    assert keys[j..] == [];
    r := collection;
  }

  /** What `extract` returns: the keys in order of first mention, each with value `''`
      and the file path once per mention. */
  lemma ExtractedEntries(keys: seq<string>, filePath: string, k: string)
    ensures AddEach(Empty(), keys, Some(""), Some(filePath)).keys == FirstOccurrences(keys, {})
    ensures k in AddEach(Empty(), keys, Some(""), Some(filePath)).values <==> k in keys
    ensures k in keys ==>
      AddEach(Empty(), keys, Some(""), Some(filePath)).values[k] == Entry(Some(""), Repeat(Some(filePath), Occurrences(keys, k)))
  {
    var empty := Empty();
    assert empty.keys == [] && empty.values.Keys == {};
    AddEachKeys(empty, keys, Some(""), Some(filePath));
    AddEachEntry(empty, keys, Some(""), Some(filePath), k);
  }

  /** Every extracted key is a literal inside one of the translate pipes found. */
  lemma {:induction false} AllKeysFromPipes(ts: seq<Translatable>, i: nat)
    requires i < |AllKeys(ts)|
    ensures exists j :: 0 <= j < |ts| && ts[j].PipeNode? && Within(ts[j].pipe, LiteralPrimitive(AllKeys(ts)[i]))
  {
    var head := TranslatableKeys(ts[0]);
    if i < |head| {
      assert ts[0].PipeNode?;
      assert Within(ts[0].pipe, LiteralPrimitive(AllKeys(ts)[i]));
    } else {
      AllKeysFromPipes(ts[1..], i - |head|);
      var j :| 0 <= j < |ts[1..]| && ts[1..][j].PipeNode? && Within(ts[1..][j].pipe, LiteralPrimitive(AllKeys(ts[1..])[i - |head|]));
      assert ts[j + 1] == ts[1..][j];
    }
  }
}
