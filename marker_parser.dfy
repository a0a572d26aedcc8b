/** `MarkerParser`: keys passed to the marker function, under whatever local name it was
    imported as. */
module MarkerParser {
  import opened Wrappers
  import opened AstHelpers
  import opened Collections

  const MarkerModuleName: ImportPath := PathPattern("ngx-translate-extract-marker")
  const MarkerImportName := "marker"
  const NgxTranslateMarkerModuleName: ImportPath := ExactPath("@ngx-translate/core")
  const NgxTranslateMarkerImportName := "_"

  /** JavaScript truthiness of a string that may be `null`. */
  predicate Truthy(s: Option<string>) {
    s.Some? && s.value != ""
  }

  /** `getMarkerImportNameFromSource`: the local name of `marker` imported from the marker
      package, else that of `_` imported from `@ngx-translate/core`, else `''`. */
  function GetMarkerImportNameFromSource(imports: seq<ImportDeclaration>): (r: string)
    ensures r != "" ==>
      ImportedAs(imports, MarkerImportName, MarkerModuleName, r)
      || ImportedAs(imports, NgxTranslateMarkerImportName, NgxTranslateMarkerModuleName, r)
    ensures Truthy(GetNamedImportAlias(imports, MarkerImportName, MarkerModuleName)) ==>
      r == GetNamedImportAlias(imports, MarkerImportName, MarkerModuleName).value
    ensures !Truthy(GetNamedImportAlias(imports, MarkerImportName, MarkerModuleName)) ==>
      r == match GetNamedImportAlias(imports, NgxTranslateMarkerImportName, NgxTranslateMarkerModuleName)
           case Some(alias) => alias
           case None => ""
    ensures (!HasNamedImport(imports, MarkerImportName, MarkerModuleName)
      && !HasNamedImport(imports, NgxTranslateMarkerImportName, NgxTranslateMarkerModuleName)) ==> r == ""
  {
    var marker := GetNamedImportAlias(imports, MarkerImportName, MarkerModuleName);
    var underscore := GetNamedImportAlias(imports, NgxTranslateMarkerImportName, NgxTranslateMarkerModuleName);
    var name := if Truthy(marker) then marker else underscore;
    if name.Some? then name.value else ""
  }

  /** The calls `findFunctionCallExpressions` selects for the marker name. */
  function MarkerCall(name: string): CallExpression -> bool {
    call => IsFunctionCall(call, name)
  }

  /** What `extract(source, filePath)` returns: `null` without a marker import, otherwise
      the strings of the first argument of every marker call, added with
      `addKeys(strings, filePath)`. */
  function Extracted(source: string, filePath: string, parse: (string, string) -> SourceFile): Option<TranslationCollection> {
    var sf := parse(source, filePath);
    var name := GetMarkerImportNameFromSource(sf.imports);
    if name == "" then None
    else Some(AddKeysEach(Empty(), FirstArgumentStrings(sf.calls, MarkerCall(name)), Some(filePath)))
  }

  method Extract(source: string, filePath: string, parse: (string, string) -> SourceFile) returns (r: Option<TranslationCollection>)
    ensures r == Extracted(source, filePath, parse)
  {
    var sourceFile := parse(source, filePath);
    var markerImportName := GetMarkerImportNameFromSource(sourceFile.imports);
    if markerImportName == "" {
      return None;
    }
    var collection: TranslationCollection := Empty();
    var calls := sourceFile.calls;
    ghost var selected := MarkerCall(markerImportName);
    ghost var target := AddKeysEach(collection, FirstArgumentStrings(calls, selected), Some(filePath));
    var i := 0;
    assert calls[0..] == calls;
    while i < |calls|
      invariant 0 <= i <= |calls|
      invariant AddKeysEach(collection, FirstArgumentStrings(calls[i..], selected), Some(filePath)) == target
    {
      var call := calls[i];
      ghost var rest := FirstArgumentStrings(calls[i + 1..], selected);
      FirstArgumentStringsAt(calls, selected, i);
      if IsFunctionCall(call, markerImportName) && call.arguments != [] {
        var strings := GetStringsFromExpression(call.arguments[0]);
        assert FirstArgumentStrings(calls[i..], selected) == [strings] + rest;
        AddKeysEachStep(collection, rest, Some(filePath), strings);
        collection := AddKeys(collection, strings, Some(filePath));
      } else {
        assert FirstArgumentStrings(calls[i..], selected) == rest;
      }
      i := i + 1;
    }
    assert calls[i..] == [];
    return Some(collection);
  }

  /** With a marker name, the keys are the strings of the selected calls' first arguments
      in order of first appearance, each with value `''` and the file as its one source. */
  lemma ExtractedEntries(calls: seq<CallExpression>, name: string, filePath: string)
    ensures var c := AddKeysEach(Empty(), FirstArgumentStrings(calls, MarkerCall(name)), Some(filePath));
      c.keys == FirstOccurrences(Concat(FirstArgumentStrings(calls, MarkerCall(name))), {})
    ensures var c := AddKeysEach(Empty(), FirstArgumentStrings(calls, MarkerCall(name)), Some(filePath));
      forall k :: k in c.values <==>
        exists i :: 0 <= i < |calls| && IsFunctionCall(calls[i], name) && calls[i].arguments != []
          && k in GetStringsFromExpression(calls[i].arguments[0])
    ensures var c := AddKeysEach(Empty(), FirstArgumentStrings(calls, MarkerCall(name)), Some(filePath));
      forall k :: k in c.values ==> c.values[k] == Entry(Some(""), [Some(filePath)])
  {
    var groups := FirstArgumentStrings(calls, MarkerCall(name));
    var c := AddKeysEach(Empty(), groups, Some(filePath));
    AddKeysEachKeys(Empty(), groups, Some(filePath));
    assert Empty().keys == [] && Empty().values.Keys == {};
    forall k ensures k in c.values <==>
        exists i :: 0 <= i < |calls| && IsFunctionCall(calls[i], name) && calls[i].arguments != []
          && k in GetStringsFromExpression(calls[i].arguments[0])
    {
      AddKeysEachEntry(Empty(), groups, Some(filePath), k);
      FirstArgumentStringsMembership(calls, MarkerCall(name), k);
      ConcatMembership(groups, k);
    }
    forall k | k in c.values ensures c.values[k] == Entry(Some(""), [Some(filePath)]) {
      AddKeysEachEntry(Empty(), groups, Some(filePath), k);
    }
  }
}
