/** `FunctionParser`: keys passed to a configured function name, called directly. */
module FunctionParser {
  import opened Wrappers
  import opened AstHelpers
  import opened Collections

  /** The calls that reach `addKeys`: among those `findSimpleCallExpressions` selects, the
      ones whose callee is the bare identifier `fnName`. */
  function CountedCall(fnName: string): CallExpression -> bool {
    call => IsSimpleCall(call, fnName) && call.expression == Identifier(fnName)
  }

  /** The collection `extract(source, filePath)` always returns: the strings of the first
      argument of every counted call, added with `addKeys(strings)`, without source file. */
  function Extracted(fnName: string, source: string, filePath: string, parse: (string, string) -> SourceFile): TranslationCollection {
    AddKeysEach(Empty(), FirstArgumentStrings(parse(source, filePath).calls, CountedCall(fnName)), None)
  }

  method Extract(fnName: string, source: string, filePath: string, parse: (string, string) -> SourceFile)
    returns (r: TranslationCollection)
    ensures r == Extracted(fnName, source, filePath, parse)
  {
    var sourceFile := parse(source, filePath);
    var collection: TranslationCollection := Empty();
    var calls := sourceFile.calls;
    ghost var selected := CountedCall(fnName);
    ghost var target := AddKeysEach(collection, FirstArgumentStrings(calls, selected), None);
    var i := 0;
    assert calls[0..] == calls;
    while i < |calls|
      invariant 0 <= i <= |calls|
      invariant AddKeysEach(collection, FirstArgumentStrings(calls[i..], selected), None) == target
    {
      var call := calls[i];
      ghost var rest := FirstArgumentStrings(calls[i + 1..], selected);
      FirstArgumentStringsAt(calls, selected, i);
      if IsSimpleCall(call, fnName) && call.expression == Identifier(fnName) && call.arguments != [] {
        var strings := GetStringsFromExpression(call.arguments[0]);
        assert FirstArgumentStrings(calls[i..], selected) == [strings] + rest;
        AddKeysEachStep(collection, rest, None, strings);
        collection := AddKeys(collection, strings, None);
      } else {
        assert FirstArgumentStrings(calls[i..], selected) == rest;
      }
      i := i + 1;
    }
    assert calls[i..] == [];
    return collection;
  }

  /** The keys are the strings of the first arguments of calls whose callee is exactly
      `fnName`, in order of first appearance; a call through a property or another name
      adds nothing. Every entry has value `''` and one absent source file. */
  lemma ExtractedEntries(calls: seq<CallExpression>, fnName: string)
    ensures var c := AddKeysEach(Empty(), FirstArgumentStrings(calls, CountedCall(fnName)), None);
      c.keys == FirstOccurrences(Concat(FirstArgumentStrings(calls, CountedCall(fnName))), {})
    ensures var c := AddKeysEach(Empty(), FirstArgumentStrings(calls, CountedCall(fnName)), None);
      forall k :: k in c.values <==>
        exists i :: 0 <= i < |calls| && calls[i].expression == Identifier(fnName) && calls[i].arguments != []
          && k in GetStringsFromExpression(calls[i].arguments[0])
    ensures var c := AddKeysEach(Empty(), FirstArgumentStrings(calls, CountedCall(fnName)), None);
      forall k :: k in c.values ==> c.values[k] == Entry(Some(""), [None])
  {
    var groups := FirstArgumentStrings(calls, CountedCall(fnName));
    var c := AddKeysEach(Empty(), groups, None);
    AddKeysEachKeys(Empty(), groups, None);
    assert Empty().keys == [] && Empty().values.Keys == {};
    forall k ensures k in c.values <==>
        exists i :: 0 <= i < |calls| && calls[i].expression == Identifier(fnName) && calls[i].arguments != []
          && k in GetStringsFromExpression(calls[i].arguments[0])
    {
      AddKeysEachEntry(Empty(), groups, None, k);
      FirstArgumentStringsMembership(calls, CountedCall(fnName), k);
      ConcatMembership(groups, k);
      forall i | 0 <= i < |calls| && calls[i].expression == Identifier(fnName)
        ensures IsSimpleCall(calls[i], fnName)
      {
        assert MentionsIdentifier(calls[i].expression, fnName);
      }
    }
    forall k | k in c.values ensures c.values[k] == Entry(Some(""), [None]) {
      AddKeysEachEntry(Empty(), groups, None, k);
    }
  }
}
