/** The TypeScript side of `ast-helpers.ts`: the expression nodes the extractors look
    at, `getStringsFromExpression`, and the tsquery selectors the marker and function
    extractors run, written as predicates over those nodes. The TypeScript parser itself
    is outside the model; a source file is given as its import declarations and its call
    expressions in document order. */
module AstHelpers {
  import opened Wrappers
  import opened JsString

  datatype BinaryOperator = PlusToken | BarBarToken | OtherOperator

  /** The expression kinds `getStringsFromExpression` tells apart, plus the identifiers,
      calls and property accesses the selectors look for; every other kind of node is
      `OtherExpression` with its sub-expressions. */
  datatype Expression =
    | StringLiteral(text: string)
    | NoSubstitutionTemplateLiteral(text: string)
    | ArrayLiteral(elements: seq<Expression>)
    | Binary(left: Expression, operatorToken: BinaryOperator, right: Expression)
    | Conditional(condition: Expression, whenTrue: Expression, whenFalse: Expression)
    | Identifier(name: string)
    | Call(callee: Expression, arguments: seq<Expression>)
    | PropertyAccess(receiver: Expression, name: string)
    | OtherExpression(children: seq<Expression>)

  /** A `CallExpression` node: its callee (`expression`) and its arguments. */
  datatype CallExpression = CallExpression(expression: Expression, arguments: seq<Expression>)

  /** `import { propertyName as name } from '…'`; `propertyName` is absent without `as`. */
  datatype ImportSpecifier = ImportSpecifier(propertyName: Option<string>, name: string)

  datatype ImportDeclaration = ImportDeclaration(moduleSpecifier: string, specifiers: seq<ImportSpecifier>)

  /** A parsed source file: its imports, and every call expression in document order. */
  datatype SourceFile = SourceFile(imports: seq<ImportDeclaration>, calls: seq<CallExpression>)

  /** The import path of a selector: a string compared for equality, or a regular
      expression made of plain characters, which matches wherever it occurs. */
  datatype ImportPath = ExactPath(path: string) | PathPattern(pattern: string)

  /** `const [x] = strings`: the first string, if there is one. */
  function First(strings: seq<string>): (r: seq<string>)
    ensures |r| <= 1 && |r| <= |strings|
    ensures strings != [] ==> r == [strings[0]]
  {
    if strings == [] then [] else [strings[0]]
  }

  /** `getStringsFromExpression`: the string keys written literally in an expression. */
  function GetStringsFromExpression(e: Expression): (r: seq<string>)
    ensures e.StringLiteral? || e.NoSubstitutionTemplateLiteral? ==> r == [e.text]
    ensures e.Binary? && e.operatorToken == PlusToken ==> |r| <= 1
    ensures e.Binary? && e.operatorToken == BarBarToken ==> |r| <= 2
    ensures e.Conditional? ==> |r| <= 2
    ensures e.Identifier? || e.Call? || e.PropertyAccess? || e.OtherExpression? ==> r == []
    ensures e.Binary? && e.operatorToken == OtherOperator ==> r == []
  {
    match e
    case StringLiteral(text) => [text]
    case NoSubstitutionTemplateLiteral(text) => [text]
    case ArrayLiteral(elements) => StringsOfElements(elements)
    case Binary(left, op, right) =>
      var l, r := First(GetStringsFromExpression(left)), First(GetStringsFromExpression(right));
      if op == PlusToken && l != [] && r != [] then [l[0] + r[0]]
      else if op == BarBarToken then l + r
      else []
    case Conditional(_, whenTrue, whenFalse) =>
      First(GetStringsFromExpression(whenTrue)) + First(GetStringsFromExpression(whenFalse))
    case _ => []
  }

  /** The `reduce` over an array literal's elements: each element's strings appended to
      those of the elements before it. */
  function StringsOfElements(elements: seq<Expression>): (r: seq<string>)
  {
    if elements == [] then []
    else StringsOfElements(elements[..|elements| - 1]) + GetStringsFromExpression(elements[|elements| - 1])
  }

  /** The number of string-literal-like nodes in an expression. */
  function LiteralCount(e: Expression): nat {
    match e
    case StringLiteral(_) => 1
    case NoSubstitutionTemplateLiteral(_) => 1
    case ArrayLiteral(elements) => LiteralCountAll(elements)
    case Binary(left, _, right) => LiteralCount(left) + LiteralCount(right)
    case Conditional(c, t, f) => LiteralCount(c) + LiteralCount(t) + LiteralCount(f)
    case Identifier(_) => 0
    case Call(callee, arguments) => LiteralCount(callee) + LiteralCountAll(arguments)
    case PropertyAccess(receiver, _) => LiteralCount(receiver)
    case OtherExpression(children) => LiteralCountAll(children)
  }

  function LiteralCountAll(es: seq<Expression>): nat {
    if es == [] then 0 else LiteralCountAll(es[..|es| - 1]) + LiteralCount(es[|es| - 1])
  }

  /** No expression yields more keys than it holds string literals; in particular one
      without literals yields none. */
  lemma {:induction false} StringsBoundedByLiterals(e: Expression)
    ensures |GetStringsFromExpression(e)| <= LiteralCount(e)
  {
    match e
    case ArrayLiteral(elements) => ElementStringsBoundedByLiterals(elements);
    case Binary(left, op, right) =>
      StringsBoundedByLiterals(left);
      StringsBoundedByLiterals(right);
    case Conditional(_, whenTrue, whenFalse) =>
      StringsBoundedByLiterals(whenTrue);
      StringsBoundedByLiterals(whenFalse);
    case _ =>
  }

  lemma {:induction false} ElementStringsBoundedByLiterals(elements: seq<Expression>)
    ensures |StringsOfElements(elements)| <= LiteralCountAll(elements)
  {
    if elements != [] {
      ElementStringsBoundedByLiterals(elements[..|elements| - 1]);
      StringsBoundedByLiterals(elements[|elements| - 1]);
    }
  }

  /** An array literal yields its elements' strings in element order: splitting the
      elements splits the result. */
  lemma {:induction false} ArrayLiteralAppend(a: seq<Expression>, b: seq<Expression>)
    ensures GetStringsFromExpression(ArrayLiteral(a + b))
         == GetStringsFromExpression(ArrayLiteral(a)) + GetStringsFromExpression(ArrayLiteral(b))
  {
    if b == [] {
      assert a + b == a;
    } else {
      var n := |b| - 1;
      assert (a + b)[..|a + b| - 1] == a + b[..n];
      ArrayLiteralAppend(a, b[..n]);
    }
  }

  /** An array of string literals. */
  function Quoted(keys: seq<string>): (r: seq<Expression>)
    ensures |r| == |keys|
  {
    seq(|keys|, i requires 0 <= i < |keys| => StringLiteral(keys[i]))
  }

  /** Writing keys as an array of string literals and reading them back gives the keys. */
  lemma {:induction false} QuotedRoundTrip(keys: seq<string>)
    ensures GetStringsFromExpression(ArrayLiteral(Quoted(keys))) == keys
  {
    if keys != [] {
      var n := |keys| - 1;
      assert Quoted(keys)[..n] == Quoted(keys[..n]);
      QuotedRoundTrip(keys[..n]);
      assert keys == keys[..n] + [keys[n]];
    }
  }

  /** `l + r` yields a key exactly when both sides yield one, and that key is the first
      key of the left side joined to the first key of the right side. */
  lemma ConcatenationStrings(l: Expression, r: Expression)
    ensures var s, sl, sr := GetStringsFromExpression(Binary(l, PlusToken, r)), GetStringsFromExpression(l), GetStringsFromExpression(r);
      (s != [] <==> sl != [] && sr != []) && (s != [] ==> s == [sl[0] + sr[0]])
  {
  }

  /** `'a' + 'b' + …`: string literals chained by `+`, grouped from the left as the
      TypeScript parser groups them. */
  function PlusChain(parts: seq<string>): (e: Expression)
    requires |parts| >= 1
    ensures e.Binary? <==> |parts| > 1
  {
    if |parts| == 1 then StringLiteral(parts[0])
    else Binary(PlusChain(parts[..|parts| - 1]), PlusToken, StringLiteral(parts[|parts| - 1]))
  }

  /** The strings `parts` written one after another. */
  function ConcatStrings(parts: seq<string>): (r: string)
    ensures |r| == if parts == [] then 0 else |ConcatStrings(parts[..|parts| - 1])| + |parts[|parts| - 1]|
  {
    if parts == [] then "" else ConcatStrings(parts[..|parts| - 1]) + parts[|parts| - 1]
  }

  /** A chain of concatenated literals yields exactly one key: the literals joined. */
  lemma {:induction false} PlusChainStrings(parts: seq<string>)
    requires |parts| >= 1
    ensures GetStringsFromExpression(PlusChain(parts)) == [ConcatStrings(parts)]
  {
    if |parts| > 1 {
      PlusChainStrings(parts[..|parts| - 1]);
    } else {
      assert parts[..0] == [];
      assert [] + parts[0] == parts[0];
    }
  }

  /** `l || r` yields the first key of each side that has one, the left one first; an
      operand without a key is skipped. */
  lemma AlternativeStrings(l: Expression, r: Expression)
    ensures var s, sl, sr := GetStringsFromExpression(Binary(l, BarBarToken, r)), GetStringsFromExpression(l), GetStringsFromExpression(r);
      && |s| == (if sl == [] then 0 else 1) + (if sr == [] then 0 else 1)
      && (sl != [] ==> s[0] == sl[0])
      && (sr != [] ==> s[|s| - 1] == sr[0])
  {
  }

  /** `c ? l : r` yields what `l || r` yields, whatever the condition. */
  lemma ConditionalStrings(c: Expression, l: Expression, r: Expression)
    ensures GetStringsFromExpression(Conditional(c, l, r)) == GetStringsFromExpression(Binary(l, BarBarToken, r))
  {
  }

  /** `e` is, or has below it, an `Identifier` named `name`; the name of a property
      access is an identifier node too. */
  predicate MentionsIdentifier(e: Expression, name: string) {
    match e
    case StringLiteral(_) => false
    case NoSubstitutionTemplateLiteral(_) => false
    case ArrayLiteral(elements) => exists x :: x in elements && MentionsIdentifier(x, name)
    case Binary(left, _, right) => MentionsIdentifier(left, name) || MentionsIdentifier(right, name)
    case Conditional(c, t, f) => MentionsIdentifier(c, name) || MentionsIdentifier(t, name) || MentionsIdentifier(f, name)
    case Identifier(n) => n == name
    case Call(callee, arguments) =>
      MentionsIdentifier(callee, name) || exists x :: x in arguments && MentionsIdentifier(x, name)
    case PropertyAccess(receiver, n) => MentionsIdentifier(receiver, name) || n == name
    case OtherExpression(children) => exists x :: x in children && MentionsIdentifier(x, name)
  }

  /** `e` is, or has below it, a `PropertyAccessExpression`. */
  predicate ContainsPropertyAccess(e: Expression) {
    match e
    case StringLiteral(_) => false
    case NoSubstitutionTemplateLiteral(_) => false
    case ArrayLiteral(elements) => exists x :: x in elements && ContainsPropertyAccess(x)
    case Binary(left, _, right) => ContainsPropertyAccess(left) || ContainsPropertyAccess(right)
    case Conditional(c, t, f) => ContainsPropertyAccess(c) || ContainsPropertyAccess(t) || ContainsPropertyAccess(f)
    case Identifier(_) => false
    case Call(callee, arguments) =>
      ContainsPropertyAccess(callee) || exists x :: x in arguments && ContainsPropertyAccess(x)
    case PropertyAccess(_, _) => true
    case OtherExpression(children) => exists x :: x in children && ContainsPropertyAccess(x)
  }

  /** `CallExpression:has(Identifier[name=fnName])`: the callee or an argument mentions the
      name. */
  predicate HasIdentifier(call: CallExpression, fnName: string) {
    MentionsIdentifier(call.expression, fnName) || exists x :: x in call.arguments && MentionsIdentifier(x, fnName)
  }

  /** `:has(PropertyAccessExpression)` on a call expression. */
  predicate HasPropertyAccess(call: CallExpression) {
    ContainsPropertyAccess(call.expression) || exists x :: x in call.arguments && ContainsPropertyAccess(x)
  }

  /** The selector of `findFunctionCallExpressions`. */
  predicate IsFunctionCall(call: CallExpression, fnName: string) {
    HasIdentifier(call, fnName) && !HasPropertyAccess(call)
  }

  /** The selector of `findSimpleCallExpressions`. */
  predicate IsSimpleCall(call: CallExpression, fnName: string) {
    HasIdentifier(call, fnName)
  }

  predicate PathMatches(d: ImportDeclaration, importPath: ImportPath) {
    match importPath
    case ExactPath(path) => d.moduleSpecifier == path
    case PathPattern(pattern) => Contains(d.moduleSpecifier, pattern)
  }

  /** The identifiers directly under a specifier, in source order. */
  function SpecifierIdentifiers(s: ImportSpecifier): (r: seq<string>)
    ensures r != [] && r[|r| - 1] == s.name
  {
    (if s.propertyName.Some? then [s.propertyName.value] else []) + [s.name]
  }

  /** The specifier imports `moduleName`, under that name or as an alias of it. */
  predicate Imports(s: ImportSpecifier, moduleName: string) {
    moduleName in SpecifierIdentifiers(s)
  }

  /** `ImportSpecifier:has(Identifier[name=moduleName]) > Identifier` in one declaration. */
  function SpecifierMatches(specifiers: seq<ImportSpecifier>, moduleName: string): seq<string>
  {
    if specifiers == [] then []
    else
      var last := specifiers[|specifiers| - 1];
      SpecifierMatches(specifiers[..|specifiers| - 1], moduleName)
        + (if Imports(last, moduleName) then SpecifierIdentifiers(last) else [])
  }

  /** A declaration yields identifiers exactly when one of its specifiers imports the name. */
  lemma {:induction false} SpecifierMatchesFound(specifiers: seq<ImportSpecifier>, moduleName: string)
    ensures SpecifierMatches(specifiers, moduleName) != [] <==> exists s :: s in specifiers && Imports(s, moduleName)
  {
    if specifiers != [] {
      var prefix, last := specifiers[..|specifiers| - 1], specifiers[|specifiers| - 1];
      SpecifierMatchesFound(prefix, moduleName);
      assert forall s :: s in specifiers <==> s in prefix || s == last by {
        assert specifiers == prefix + [last];
      }
    }
  }

  /** The last identifier a declaration yields is the local name of one of its specifiers
      that imports the name. */
  lemma {:induction false} SpecifierMatchesLast(specifiers: seq<ImportSpecifier>, moduleName: string)
    ensures var r := SpecifierMatches(specifiers, moduleName);
      r != [] ==> exists i :: 0 <= i < |specifiers| && Imports(specifiers[i], moduleName) && r[|r| - 1] == specifiers[i].name
  {
    if specifiers != [] {
      var n := |specifiers| - 1;
      var before := SpecifierMatches(specifiers[..n], moduleName);
      if Imports(specifiers[n], moduleName) {
        assert SpecifierMatches(specifiers, moduleName) == before + SpecifierIdentifiers(specifiers[n]);
      } else if before != [] {
        assert SpecifierMatches(specifiers, moduleName) == before;
        SpecifierMatchesLast(specifiers[..n], moduleName);
        var i :| 0 <= i < n && Imports(specifiers[..n][i], moduleName) && before[|before| - 1] == specifiers[..n][i].name;
        assert specifiers[i] == specifiers[..n][i];
      }
    }
  }

  /** Some declaration from a matching path has a specifier importing `moduleName`. */
  ghost predicate HasNamedImport(imports: seq<ImportDeclaration>, moduleName: string, importPath: ImportPath) {
    exists d, s :: d in imports && PathMatches(d, importPath) && s in d.specifiers && Imports(s, moduleName)
  }

  /** Some declaration from a matching path has a specifier importing `moduleName` under
      the local name `alias`. */
  ghost predicate ImportedAs(imports: seq<ImportDeclaration>, moduleName: string, importPath: ImportPath, alias: string) {
    exists d, s :: d in imports && PathMatches(d, importPath) && s in d.specifiers && Imports(s, moduleName) && s.name == alias
  }

  /** `getNamedImportIdentifiers`: the identifiers of every matching specifier, declaration
      by declaration. */
  function GetNamedImportIdentifiers(imports: seq<ImportDeclaration>, moduleName: string, importPath: ImportPath): (r: seq<string>)
  {
    if imports == [] then []
    else
      var last := imports[|imports| - 1];
      GetNamedImportIdentifiers(imports[..|imports| - 1], moduleName, importPath)
        + (if PathMatches(last, importPath) then SpecifierMatches(last.specifiers, moduleName) else [])
  }

  lemma HasNamedImportSnoc(prefix: seq<ImportDeclaration>, last: ImportDeclaration, moduleName: string, importPath: ImportPath)
    ensures HasNamedImport(prefix + [last], moduleName, importPath) <==>
      HasNamedImport(prefix, moduleName, importPath)
      || (PathMatches(last, importPath) && exists s :: s in last.specifiers && Imports(s, moduleName))
  {
    if HasNamedImport(prefix + [last], moduleName, importPath) {
      var d, s :| d in prefix + [last] && PathMatches(d, importPath) && s in d.specifiers && Imports(s, moduleName);
      if d != last {
        assert d in prefix;
      }
    }
    if HasNamedImport(prefix, moduleName, importPath) {
      var d, s :| d in prefix && PathMatches(d, importPath) && s in d.specifiers && Imports(s, moduleName);
      assert d in prefix + [last];
    }
    if PathMatches(last, importPath) && exists s :: s in last.specifiers && Imports(s, moduleName) {
      var s :| s in last.specifiers && Imports(s, moduleName);
      assert last in prefix + [last];
    }
  }

  /** Identifiers are found exactly when some specifier matches. */
  lemma {:induction false} NamedImportIdentifiersFound(imports: seq<ImportDeclaration>, moduleName: string, importPath: ImportPath)
    ensures GetNamedImportIdentifiers(imports, moduleName, importPath) != [] <==> HasNamedImport(imports, moduleName, importPath)
  {
    if imports != [] {
      var prefix, last := imports[..|imports| - 1], imports[|imports| - 1];
      assert imports == prefix + [last];
      NamedImportIdentifiersFound(prefix, moduleName, importPath);
      HasNamedImportSnoc(prefix, last, moduleName, importPath);
      SpecifierMatchesFound(last.specifiers, moduleName);
    }
  }

  /** The last identifier found is the local name of a matching specifier. */
  lemma {:induction false} NamedImportIdentifiersLast(imports: seq<ImportDeclaration>, moduleName: string, importPath: ImportPath)
    ensures var r := GetNamedImportIdentifiers(imports, moduleName, importPath);
      r != [] ==> ImportedAs(imports, moduleName, importPath, r[|r| - 1])
  {
    if imports != [] {
      var last := imports[|imports| - 1];
      if PathMatches(last, importPath) && SpecifierMatches(last.specifiers, moduleName) != [] {
        LastFromLastDeclaration(imports, moduleName, importPath);
      } else {
        NamedImportIdentifiersLast(imports[..|imports| - 1], moduleName, importPath);
        LastFromPrefix(imports, moduleName, importPath);
      }
    }
  }

  /** When the last declaration contributes identifiers, the last one found is its own. */
  lemma LastFromLastDeclaration(imports: seq<ImportDeclaration>, moduleName: string, importPath: ImportPath)
    requires imports != [] && PathMatches(imports[|imports| - 1], importPath)
    requires SpecifierMatches(imports[|imports| - 1].specifiers, moduleName) != []
    ensures var r := GetNamedImportIdentifiers(imports, moduleName, importPath);
      r != [] && ImportedAs(imports, moduleName, importPath, r[|r| - 1])
  {
    var here := SpecifierMatches(imports[|imports| - 1].specifiers, moduleName);
    var r := GetNamedImportIdentifiers(imports, moduleName, importPath);
    assert r == GetNamedImportIdentifiers(imports[..|imports| - 1], moduleName, importPath) + here;
    assert r[|r| - 1] == here[|here| - 1];
    ImportedAsLast(imports, moduleName, importPath);
  }

  /** When the last declaration contributes nothing, the identifiers are the prefix's. */
  lemma LastFromPrefix(imports: seq<ImportDeclaration>, moduleName: string, importPath: ImportPath)
    requires imports != []
    requires !(PathMatches(imports[|imports| - 1], importPath) && SpecifierMatches(imports[|imports| - 1].specifiers, moduleName) != [])
    requires var b := GetNamedImportIdentifiers(imports[..|imports| - 1], moduleName, importPath);
      b != [] ==> ImportedAs(imports[..|imports| - 1], moduleName, importPath, b[|b| - 1])
    ensures var r := GetNamedImportIdentifiers(imports, moduleName, importPath);
      r != [] ==> ImportedAs(imports, moduleName, importPath, r[|r| - 1])
  {
    var b := GetNamedImportIdentifiers(imports[..|imports| - 1], moduleName, importPath);
    assert GetNamedImportIdentifiers(imports, moduleName, importPath) == b;
    if b != [] {
      ImportedAsPrefix(imports, moduleName, importPath, b[|b| - 1]);
    }
  }

  lemma ImportedAsLast(imports: seq<ImportDeclaration>, moduleName: string, importPath: ImportPath)
    requires imports != [] && PathMatches(imports[|imports| - 1], importPath)
    requires SpecifierMatches(imports[|imports| - 1].specifiers, moduleName) != []
    ensures var here := SpecifierMatches(imports[|imports| - 1].specifiers, moduleName);
      ImportedAs(imports, moduleName, importPath, here[|here| - 1])
  {
    var last := imports[|imports| - 1];
    var here := SpecifierMatches(last.specifiers, moduleName);
    SpecifierMatchesLast(last.specifiers, moduleName);
    var i :| 0 <= i < |last.specifiers| && Imports(last.specifiers[i], moduleName) && here[|here| - 1] == last.specifiers[i].name;
    ImportedAsWitness(imports, moduleName, importPath, |imports| - 1, last.specifiers[i]);
  }

  lemma ImportedAsWitness(imports: seq<ImportDeclaration>, moduleName: string, importPath: ImportPath, i: nat, s: ImportSpecifier)
    requires i < |imports| && PathMatches(imports[i], importPath)
    requires s in imports[i].specifiers && Imports(s, moduleName)
    ensures ImportedAs(imports, moduleName, importPath, s.name)
  {
    assert imports[i] in imports;
  }

  lemma ImportedAsPrefix(imports: seq<ImportDeclaration>, moduleName: string, importPath: ImportPath, alias: string)
    requires imports != [] && ImportedAs(imports[..|imports| - 1], moduleName, importPath, alias)
    ensures ImportedAs(imports, moduleName, importPath, alias)
  {
    var prefix := imports[..|imports| - 1];
    var d, s :| d in prefix && PathMatches(d, importPath) && s in d.specifiers && Imports(s, moduleName) && s.name == alias;
    var j :| 0 <= j < |prefix| && prefix[j] == d;
    assert imports[j] == d;
  }

  /** `getNamedImportAlias`: the local name of the last matching specifier, if any. */
  function GetNamedImportAlias(imports: seq<ImportDeclaration>, moduleName: string, importPath: ImportPath): (r: Option<string>)
    ensures r.None? <==> !HasNamedImport(imports, moduleName, importPath)
    ensures r.Some? ==> ImportedAs(imports, moduleName, importPath, r.value)
  {
    var ids := GetNamedImportIdentifiers(imports, moduleName, importPath);
    NamedImportIdentifiersFound(imports, moduleName, importPath);
    NamedImportIdentifiersLast(imports, moduleName, importPath);
    if ids == [] then None else Some(ids[|ids| - 1])
  }

  /** For each selected call that has a first argument, in order, the strings of that
      argument: what the marker and function extractors hand to `addKeys`. */
  function FirstArgumentStrings(calls: seq<CallExpression>, selected: CallExpression -> bool): (r: seq<seq<string>>)
  {
    if calls == [] then []
    else
      var call := calls[0];
      (if selected(call) && call.arguments != [] then [GetStringsFromExpression(call.arguments[0])] else [])
        + FirstArgumentStrings(calls[1..], selected)
  }

  /** A string is among the groups exactly when some selected call with an argument
      yields it. */
  lemma {:induction false} FirstArgumentStringsMembership(calls: seq<CallExpression>, selected: CallExpression -> bool, k: string)
    ensures (exists g :: g in FirstArgumentStrings(calls, selected) && k in g) <==>
      exists i :: 0 <= i < |calls| && selected(calls[i]) && calls[i].arguments != []
        && k in GetStringsFromExpression(calls[i].arguments[0])
  {
    if calls != [] {
      FirstArgumentStringsMembership(calls[1..], selected, k);
      var rest := FirstArgumentStrings(calls[1..], selected);
      var r := FirstArgumentStrings(calls, selected);
      if exists i :: (0 <= i < |calls| && selected(calls[i]) && calls[i].arguments != []
        && k in GetStringsFromExpression(calls[i].arguments[0]))
      {
        var i :| 0 <= i < |calls| && selected(calls[i]) && calls[i].arguments != []
          && k in GetStringsFromExpression(calls[i].arguments[0]);
        if i == 0 {
          assert GetStringsFromExpression(calls[0].arguments[0]) in r;
        } else {
          assert calls[1..][i - 1] == calls[i];
          var g :| g in rest && k in g;
          assert g in r;
        }
      }
      if exists g :: g in r && k in g {
        var g :| g in r && k in g;
        if g !in rest {
          assert selected(calls[0]) && calls[0].arguments != [];
        } else {
          var i :| 0 <= i < |calls[1..]| && selected(calls[1..][i]) && calls[1..][i].arguments != []
            && k in GetStringsFromExpression(calls[1..][i].arguments[0]);
          assert calls[1..][i] == calls[i + 1];
        }
      }
    }
  }

  lemma FirstArgumentStringsAt(calls: seq<CallExpression>, selected: CallExpression -> bool, i: nat)
    requires i < |calls|
    ensures FirstArgumentStrings(calls[i..], selected)
         == (if selected(calls[i]) && calls[i].arguments != [] then [GetStringsFromExpression(calls[i].arguments[0])] else [])
            + FirstArgumentStrings(calls[i + 1..], selected)
  {
    assert calls[i..][1..] == calls[i + 1..];
  }
}
