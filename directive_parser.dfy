/** `directive.parser.ts`: keys marked with a `translate` (or `marker`) attribute on an
    element: the attribute's value, the literals of its bound value, or the element's text. */
module DirectiveParser {
  import opened Wrappers
  import opened JsString
  import opened Collections
  import opened TemplateAst

  /** `TRANSLATE_ATTR_NAMES`. */
  const TranslateAttrNames: seq<string> := ["translate", "marker"]

  /** `isElementLike`: an element or an `<ng-template>`. */
  predicate IsElementLike(node: Node) {
    node.Element? || node.Template?
  }

  /** `isText`. */
  predicate IsText(node: Node) {
    node.Text?
  }

  /** Index of the first item whose name is one of `names`. */
  function FindNamed<T>(items: seq<T>, nameOf: T -> string, names: seq<string>): (r: Option<nat>)
    ensures r.Some? ==> r.value < |items| && nameOf(items[r.value]) in names
    ensures r.Some? ==> forall j :: 0 <= j < r.value ==> nameOf(items[j]) !in names
    ensures r.None? ==> forall j :: 0 <= j < |items| ==> nameOf(items[j]) !in names
  {
    if items == [] then None
    else if nameOf(items[0]) in names then Some(0)
    else match FindNamed(items[1..], nameOf, names)
      case Some(i) => Some(i + 1)
      case None => None
  }

  /** `getAttribute(element, names)`: the first attribute with one of the names. */
  function GetAttribute(element: Node, names: seq<string>): (r: Option<TextAttribute>)
    requires IsElementLike(element)
    ensures r.Some? ==> r.value in element.attributes && r.value.name in names
    ensures r.None? <==> forall j :: 0 <= j < |element.attributes| ==> element.attributes[j].name !in names
  {
    match FindNamed(element.attributes, (a: TextAttribute) => a.name, names)
    case Some(i) => Some(element.attributes[i])
    case None => None
  }

  /** `getBoundAttribute(element, names)`: the first input with one of the names. */
  function GetBoundAttribute(element: Node, names: seq<string>): (r: Option<BoundAttribute>)
    requires IsElementLike(element)
    ensures r.Some? ==> r.value in element.inputs && r.value.name in names
    ensures r.None? <==> forall j :: 0 <= j < |element.inputs| ==> element.inputs[j].name !in names
  {
    match FindNamed(element.inputs, (a: BoundAttribute) => a.name, names)
    case Some(i) => Some(element.inputs[i])
    case None => None
  }

  predicate HasAttributes(element: Node, names: seq<string>)
    requires IsElementLike(element)
  {
    GetAttribute(element, names).Some?
  }

  predicate HasBoundAttribute(element: Node, names: seq<string>)
    requires IsElementLike(element)
  {
    GetBoundAttribute(element, names).Some?
  }

  /** An element the extractor reads keys from. */
  predicate Marked(node: Node) {
    IsElementLike(node) && (HasAttributes(node, TranslateAttrNames) || HasBoundAttribute(node, TranslateAttrNames))
  }

  /** `getElementsWithTranslateAttribute(nodes)`: in document order, each element-like node
      once for a translate attribute and once more for a bound one, followed by the marked
      elements below it; nodes of any other kind are passed over together with everything
      below them. */
  function ElementsWithTranslateAttribute(nodes: seq<Node>): (r: seq<Node>)
    ensures forall i :: 0 <= i < |r| ==> Marked(r[i])
    ensures (forall j :: 0 <= j < |nodes| ==> !IsElementLike(nodes[j])) ==> r == []
  {
    if nodes == [] then []
    else
      var node := nodes[0];
      var own :=
        if IsElementLike(node) then
          (if HasAttributes(node, TranslateAttrNames) then [node] else [])
          + (if HasBoundAttribute(node, TranslateAttrNames) then [node] else [])
          + ElementsWithTranslateAttribute(node.children)
        else [];
      var rest := ElementsWithTranslateAttribute(nodes[1..]);
      assert forall j :: 0 <= j < |nodes[1..]| ==> nodes[1..][j] == nodes[j + 1];
      own + rest
  }

  /** An element carrying both a translate attribute and a bound one is collected twice. */
  lemma CollectedTwice(element: Node, others: seq<Node>)
    requires IsElementLike(element)
    requires HasAttributes(element, TranslateAttrNames) && HasBoundAttribute(element, TranslateAttrNames)
    ensures ElementsWithTranslateAttribute([element] + others)[..2] == [element, element]
  {
    assert ([element] + others)[0] == element;
    assert ([element] + others)[1..] == others;
  }

  /** The element-like nodes the walk reaches, in document order: each one followed by
      the element-like nodes below it. A node of any other kind is passed over together
      with everything below it. */
  function ElementLikeNodes(nodes: seq<Node>): (r: seq<Node>)
    ensures forall i :: 0 <= i < |r| ==> IsElementLike(r[i])
    ensures forall j :: 0 <= j < |nodes| && IsElementLike(nodes[j]) ==> nodes[j] in r
  {
    if nodes == [] then []
    else
      var rest := ElementLikeNodes(nodes[1..]);
      assert forall j :: 0 < j < |nodes| ==> nodes[j] == nodes[1..][j - 1];
      (if IsElementLike(nodes[0]) then [nodes[0]] + ElementLikeNodes(nodes[0].children) else []) + rest
  }

  /** The walk descends through element-like nodes: an element-like child of a node it
      reaches is reached too. */
  lemma {:induction false} ElementLikeNodesClosed(nodes: seq<Node>, x: Node, c: Node)
    requires IsElementLike(x) && x in ElementLikeNodes(nodes)
    requires c in x.children && IsElementLike(c)
    ensures c in ElementLikeNodes(nodes)
  {
    var n := nodes[0];
    var rest := ElementLikeNodes(nodes[1..]);
    if x in rest {
      ElementLikeNodesClosed(nodes[1..], x, c);
    } else if x != n {
      ElementLikeNodesClosed(n.children, x, c);
    }
  }

  /** What the walk collects at one node it reaches: the node once for a translate
      attribute and once more for a bound one. */
  function Copies(node: Node): (r: seq<Node>)
    ensures |r| <= 2
    ensures forall i :: 0 <= i < |r| ==> r[i] == node
    ensures r != [] <==> Marked(node)
  {
    if IsElementLike(node) then
      (if HasAttributes(node, TranslateAttrNames) then [node] else [])
      + (if HasBoundAttribute(node, TranslateAttrNames) then [node] else [])
    else []
  }

  /** The copies of each node in turn. */
  function CopiesAll(nodes: seq<Node>): seq<Node> {
    if nodes == [] then [] else Copies(nodes[0]) + CopiesAll(nodes[1..])
  }

  lemma {:induction false} CopiesAllAppend(a: seq<Node>, b: seq<Node>)
    ensures CopiesAll(a + b) == CopiesAll(a) + CopiesAll(b)
  {
    if a == [] {
      assert a + b == b;
    } else {
      assert (a + b)[0] == a[0];
      assert (a + b)[1..] == a[1..] + b;
      CopiesAllAppend(a[1..], b);
    }
  }

  lemma {:induction false} CopiesAllMembers(nodes: seq<Node>, x: Node)
    ensures x in CopiesAll(nodes) <==> x in nodes && Marked(x)
  {
    if nodes != [] {
      CopiesAllMembers(nodes[1..], x);
      assert x in nodes <==> x == nodes[0] || x in nodes[1..];
    }
  }

  /** The walk, as a walk followed by a filter: the nodes reached, in document order,
      each replaced by its copies. */
  lemma {:induction false} ElementsAsCopies(nodes: seq<Node>)
    ensures ElementsWithTranslateAttribute(nodes) == CopiesAll(ElementLikeNodes(nodes))
  {
    if nodes != [] {
      var n := nodes[0];
      ElementsAsCopies(nodes[1..]);
      if IsElementLike(n) {
        ElementsAsCopies(n.children);
        var below := ElementLikeNodes(n.children);
        var rest := ElementLikeNodes(nodes[1..]);
        CopiesAllAppend([n] + below, rest);
        CopiesAllAppend([n], below);
        assert CopiesAll([n]) == Copies(n) by {
          assert [n][1..] == [];
        }
        assert ElementLikeNodes(nodes) == [n] + below + rest;
      } else {
        assert ElementLikeNodes(nodes) == ElementLikeNodes(nodes[1..]);
        assert ElementsWithTranslateAttribute(nodes) == ElementsWithTranslateAttribute(nodes[1..]);
      }
    }
  }

  /** A node is collected exactly when the walk reaches it and it carries a translate
      attribute or a bound one. */
  lemma ElementsCollected(nodes: seq<Node>, x: Node)
    ensures x in ElementsWithTranslateAttribute(nodes) <==> x in ElementLikeNodes(nodes) && Marked(x)
  {
    ElementsAsCopies(nodes);
    CopiesAllMembers(ElementLikeNodes(nodes), x);
  }

  /** `getTextNodes(element)`: the text of the element's direct `Text` children, in order. */
  function GetTextNodes(children: seq<Node>): (r: seq<string>)
    ensures |r| <= |children|
    ensures forall i :: 0 <= i < |r| ==> Text(r[i]) in children
    ensures forall j :: 0 <= j < |children| && IsText(children[j]) ==> children[j].text in r
  {
    if children == [] then []
    else
      var rest := GetTextNodes(children[1..]);
      assert forall j :: 0 <= j < |children[1..]| ==> children[1..][j] == children[j + 1];
      (if IsText(children[0]) then [children[0].text] else []) + rest
  }

  /** The texts of a concatenation are those of each part in turn: with the contract
      above for a single child, the texts of the `Text` children in order, each as
      often as it occurs. */
  lemma {:induction false} GetTextNodesAppend(a: seq<Node>, b: seq<Node>)
    ensures GetTextNodes(a + b) == GetTextNodes(a) + GetTextNodes(b)
  {
    if a == [] {
      assert a + b == b;
    } else {
      assert (a + b)[0] == a[0];
      assert (a + b)[1..] == a[1..] + b;
      GetTextNodesAppend(a[1..], b);
    }
  }

  /** `getLiteralPrimitives(exp)`: the literals of a bound value. It looks inside
      interpolations, array elements, object-literal values, a pipe's subject (not its
      arguments), both branches of a conditional, both operands of a binary expression
      (separately, never concatenated) and the expression an `ASTWithSource` wraps. */
  function GetLiteralPrimitives(exp: Ast): (r: seq<string>)
    ensures forall i :: 0 <= i < |r| ==> Within(exp, LiteralPrimitive(r[i]))
    ensures exp.LiteralPrimitive? ==> r == [exp.value]
    ensures exp.Call? || exp.KeyedRead? || exp.ParenthesizedExpression? || exp.OtherAst? ==> r == []
  {
    match exp
    case LiteralPrimitive(value) => [value]
    case Interpolation(expressions) => GetLiteralPrimitivesAll(expressions)
    case LiteralArray(expressions) => GetLiteralPrimitivesAll(expressions)
    case LiteralMap(_, values) => GetLiteralPrimitivesAll(values)
    case BindingPipe(subject, _, _) => GetLiteralPrimitives(subject)
    case Conditional(_, trueExp, falseExp) => GetLiteralPrimitives(trueExp) + GetLiteralPrimitives(falseExp)
    case Binary(_, left, right) => GetLiteralPrimitives(left) + GetLiteralPrimitives(right)
    case AstWithSource(ast) => GetLiteralPrimitives(ast)
    case _ => []
  }

  /** The literals of each expression in turn. */
  function GetLiteralPrimitivesAll(asts: seq<Ast>): (r: seq<string>)
    ensures forall i :: 0 <= i < |r| ==> WithinAny(asts, LiteralPrimitive(r[i]))
  {
    if asts == [] then []
    else
      var head, tail := GetLiteralPrimitives(asts[0]), GetLiteralPrimitivesAll(asts[1..]);
      assert forall i :: 0 <= i < |head| ==> WithinAny(asts, LiteralPrimitive(head[i])) by {
        forall i | 0 <= i < |head| ensures WithinAny(asts, LiteralPrimitive(head[i])) {
          WithinHead(asts, LiteralPrimitive(head[i]));
        }
      }
      assert forall i :: 0 <= i < |tail| ==> WithinAny(asts, LiteralPrimitive(tail[i])) by {
        forall i | 0 <= i < |tail| ensures WithinAny(asts, LiteralPrimitive(tail[i])) {
          WithinTail(asts, LiteralPrimitive(tail[i]));
        }
      }
      head + tail
  }

  /** `v` is the value of a literal in a position `getLiteralPrimitives` looks at:
      interpolated expressions, array elements, object-literal values, a pipe's subject,
      the branches of a conditional, the operands of a binary expression and the
      expression an `ASTWithSource` wraps. */
  ghost predicate LiteralIn(exp: Ast, v: string) {
    match exp
    case LiteralPrimitive(value) => value == v
    case Interpolation(expressions) => exists i :: 0 <= i < |expressions| && LiteralIn(expressions[i], v)
    case LiteralArray(expressions) => exists i :: 0 <= i < |expressions| && LiteralIn(expressions[i], v)
    case LiteralMap(_, values) => exists i :: 0 <= i < |values| && LiteralIn(values[i], v)
    case BindingPipe(subject, _, _) => LiteralIn(subject, v)
    case Conditional(_, trueExp, falseExp) => LiteralIn(trueExp, v) || LiteralIn(falseExp, v)
    case Binary(_, left, right) => LiteralIn(left, v) || LiteralIn(right, v)
    case AstWithSource(ast) => LiteralIn(ast, v)
    case _ => false
  }

  /** A value is returned exactly when it is a literal in a position looked at; in
      particular a pipe's arguments, a conditional's condition, calls, keyed reads and
      parenthesised expressions contribute nothing. */
  lemma {:induction false} LiteralPrimitivesFound(exp: Ast, v: string)
    ensures v in GetLiteralPrimitives(exp) <==> LiteralIn(exp, v)
  {
    match exp
    case LiteralPrimitive(_) =>
    case Interpolation(expressions) => LiteralPrimitivesFoundAll(expressions, v);
    case LiteralArray(expressions) => LiteralPrimitivesFoundAll(expressions, v);
    case LiteralMap(_, values) => LiteralPrimitivesFoundAll(values, v);
    case BindingPipe(subject, _, _) => LiteralPrimitivesFound(subject, v);
    case Conditional(_, trueExp, falseExp) =>
      LiteralPrimitivesFound(trueExp, v);
      LiteralPrimitivesFound(falseExp, v);
    case Binary(_, left, right) =>
      LiteralPrimitivesFound(left, v);
      LiteralPrimitivesFound(right, v);
    case AstWithSource(ast) => LiteralPrimitivesFound(ast, v);
    case _ =>
  }

  lemma {:induction false} LiteralPrimitivesFoundAll(asts: seq<Ast>, v: string)
    ensures v in GetLiteralPrimitivesAll(asts) <==> exists i :: 0 <= i < |asts| && LiteralIn(asts[i], v)
  {
    if asts != [] {
      LiteralPrimitivesFound(asts[0], v);
      LiteralPrimitivesFoundAll(asts[1..], v);
      if exists i :: 0 <= i < |asts| && LiteralIn(asts[i], v) {
        var i :| 0 <= i < |asts| && LiteralIn(asts[i], v);
        if i > 0 {
          assert LiteralIn(asts[1..][i - 1], v);
        }
      }
      if exists i :: 0 <= i < |asts[1..]| && LiteralIn(asts[1..][i], v) {
        var i :| 0 <= i < |asts[1..]| && LiteralIn(asts[1..][i], v);
        assert LiteralIn(asts[i + 1], v);
      }
    }
  }

  /** The literals of a list of expressions are those of each expression in turn, in
      order and with repetitions. */
  lemma {:induction false} GetLiteralPrimitivesAllAppend(a: seq<Ast>, b: seq<Ast>)
    ensures GetLiteralPrimitivesAll(a + b) == GetLiteralPrimitivesAll(a) + GetLiteralPrimitivesAll(b)
  {
    if a == [] {
      assert a + b == b;
    } else {
      assert (a + b)[0] == a[0];
      assert (a + b)[1..] == a[1..] + b;
      GetLiteralPrimitivesAllAppend(a[1..], b);
    }
  }

  /** Each text, trimmed. */
  function TrimAll(texts: seq<string>): (r: seq<string>)
    ensures |r| == |texts|
    ensures forall i :: 0 <= i < |r| ==> r[i] == Trim(texts[i])
  {
    seq(|texts|, i requires 0 <= i < |texts| => Trim(texts[i]))
  }

  /** The keys one collected element gives, chosen in this order: a non-empty translate
      attribute's value; else the literals of a bound translate attribute; else each
      direct text child, trimmed. */
  function ElementKeys(element: Node): (r: seq<string>)
    requires IsElementLike(element)
    ensures var attribute := GetAttribute(element, TranslateAttrNames);
      attribute.Some? && attribute.value.value != "" ==> r == [attribute.value.value]
    ensures var attribute := GetAttribute(element, TranslateAttrNames);
      var bound := GetBoundAttribute(element, TranslateAttrNames);
      !(attribute.Some? && attribute.value.value != "") && bound.Some? ==>
        r == GetLiteralPrimitives(bound.value.value)
    ensures var attribute := GetAttribute(element, TranslateAttrNames);
      var bound := GetBoundAttribute(element, TranslateAttrNames);
      !(attribute.Some? && attribute.value.value != "") && bound.None? ==>
        r == TrimAll(GetTextNodes(element.children))
  {
    var attribute := GetAttribute(element, TranslateAttrNames);
    if attribute.Some? && attribute.value.value != "" then [attribute.value.value]
    else
      var bound := GetBoundAttribute(element, TranslateAttrNames);
      if bound.Some? then GetLiteralPrimitives(bound.value.value)
      else TrimAll(GetTextNodes(element.children))
  }

  /** The keys of each collected element, in order. */
  function AllElementKeys(elements: seq<Node>): seq<string>
    requires forall i :: 0 <= i < |elements| ==> Marked(elements[i])
  {
    if elements == [] then []
    else
      assert Marked(elements[0]);
      ElementKeys(elements[0]) + AllElementKeys(elements[1..])
  }

  lemma AllElementKeysAt(elements: seq<Node>, i: nat)
    requires forall j :: 0 <= j < |elements| ==> Marked(elements[j])
    requires i < |elements|
    ensures AllElementKeys(elements[i..]) == ElementKeys(elements[i]) + AllElementKeys(elements[i + 1..])
  {
    assert elements[i..][1..] == elements[i + 1..];
  }

  /** `collection.add(key)` for each key in turn: no value, no source file. */
  method AddEachKey(c: TranslationCollection, keys: seq<string>) returns (r: TranslationCollection)
    ensures r == AddEach(c, keys, None, None)
  {
    var collection := c;
    var j := 0;
    assert keys[0..] == keys;
    while j < |keys|
      invariant 0 <= j <= |keys|
      invariant AddEach(collection, keys[j..], None, None) == AddEach(c, keys, None, None)
    {
      AddEachAt(collection, keys, j, None, None);
      collection := Add(collection, keys[j], None, None);
      j := j + 1;
    }
    assert keys[j..] == [];
    r := collection;
  }

  /** The collection `extract(source, filePath)` returns: the keys of every collected
      element, in order, each added with `add(key)`, so without value and without source
      file. `parse` stands for Angular's `parseTemplate`. */
  function Extracted(source: string, filePath: string, parse: (string, string) -> seq<Node>): TranslationCollection {
    AddEach(Empty(), AllElementKeys(ElementsWithTranslateAttribute(parse(TemplateSource(source, filePath), filePath))), None, None)
  }

  method Extract(source: string, filePath: string, parse: (string, string) -> seq<Node>) returns (r: TranslationCollection)
    ensures r == Extracted(source, filePath, parse)
  {
    var collection: TranslationCollection := Empty();
    var template := TemplateSource(source, filePath);
    var nodes := parse(template, filePath);
    var elements := ElementsWithTranslateAttribute(nodes);
    ghost var target := AddEach(Empty(), AllElementKeys(elements), None, None);
    assert elements[0..] == elements;
    var i := 0;
    while i < |elements|
      invariant 0 <= i <= |elements|
      invariant AddEach(collection, AllElementKeys(elements[i..]), None, None) == target
    {
      var element := elements[i];
      AllElementKeysAt(elements, i);
      ghost var rest := AllElementKeys(elements[i + 1..]);
      AddEachAppend(collection, ElementKeys(element), rest, None, None);
      var attribute := GetAttribute(element, TranslateAttrNames);
      if attribute.Some? && attribute.value.value != "" {
        AddEachStep(collection, attribute.value.value, [], None, None);
        collection := Add(collection, attribute.value.value, None, None);
      } else {
        var boundAttribute := GetBoundAttribute(element, TranslateAttrNames);
        if boundAttribute.Some? {
          collection := AddEachKey(collection, GetLiteralPrimitives(boundAttribute.value.value));
        } else {
          var textNodes := GetTextNodes(element.children);
          collection := AddEachKey(collection, TrimAll(textNodes));
        }
      }
      i := i + 1;
    }
    assert elements[i..] == [];
    r := collection;
  }

  /** What `extract` returns: the keys in order of first mention, each without a value
      and with one absent source file per mention. */
  lemma ExtractedEntries(keys: seq<string>, k: string)
    ensures AddEach(Empty(), keys, None, None).keys == FirstOccurrences(keys, {})
    ensures k in AddEach(Empty(), keys, None, None).values <==> k in keys
    ensures k in keys ==> AddEach(Empty(), keys, None, None).values[k] == Entry(None, Repeat(None, Occurrences(keys, k)))
  {
    var empty := Empty();
    assert empty.keys == [] && empty.values.Keys == {};
    AddEachKeys(empty, keys, None, None);
    AddEachEntry(empty, keys, None, None, k);
  }
}
