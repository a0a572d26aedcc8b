/** `ExtractTask` (`extract.task.ts`): runs the parsers over every input file through the
    cache, combines the per-file results, merges them with each output's existing
    translations, runs the post-processors and writes the compiled result.

    Outside the model, and given as parameters: the glob and the file reads behind
    `getFiles` (a function from a pattern to the matched files with their contents), the
    `fs.statSync(...).isDirectory()` test, the compilers' `parse` and `compile`, the
    template and TypeScript parsers, and the locale collator. Console output is left out. */
module ExtractTasks {
  import opened Wrappers
  import opened Collections
  import opened TemplateAst
  import opened AstHelpers
  import opened CompilerFactory
  import opened SortSensitivity
  import Caches
  import PipeParser
  import DirectiveParser
  import MarkerParser
  import FunctionParser
  import KeyAsDefaultValue
  import KeyAsInitialDefaultValue
  import NullAsDefaultValue
  import StripPrefix
  import SortByKey
  import SortByOriginalOrder

  /** The parsers a task can run. */
  datatype Parser = Pipes | Directives | Markers | FunctionCalls(fnName: string)

  /** The post-processors a task can run, with their construction options. */
  datatype PostProcessor =
    | KeyAsDefaultValueProcessor
    | KeyAsInitialDefaultValueProcessor
    | NullAsDefaultValueProcessor
    | StripPrefixProcessor(prefix: string)
    | SortByKeyProcessor(sortByKey: SortSensitivity.Processor)
    | SortByOriginalOrderProcessor(sortByOriginalOrder: SortSensitivity.Processor)

  /** Angular's template parser and the TypeScript parser. */
  datatype Frontends = Frontends(parseTemplate: (string, string) -> seq<Node>, parseSource: (string, string) -> SourceFile)

  /** A compiler's `parse` (which may throw) and `compile`. */
  datatype Codec = Codec(parse: (Compiler, string) -> Result<TranslationCollection>, compile: (Compiler, TranslationCollection) -> string)

  /** A matched input file: the pattern that matched it, its path and its contents. */
  datatype SourceText = SourceText(pattern: string, filePath: string, contents: string)

  /** What the cache stores per file: the values of the kept parser results. */
  type Results = seq<TranslationCollection>

  /** The configured cache. */
  datatype Cache = NoCache(nullCache: Caches.NullCache<Results>) | CacheFile(fileCache: Caches.FileCache<Results>)

  // ---------------------------------------------------------------- extraction

  /** `parser.extract(contents, filePath)`. */
  function ParserOutput(fe: Frontends, parser: Parser, contents: string, filePath: string): Option<TranslationCollection> {
    match parser
    case Pipes => Some(PipeParser.Extracted(contents, filePath, fe.parseTemplate))
    case Directives => Some(DirectiveParser.Extracted(contents, filePath, fe.parseTemplate))
    case Markers => MarkerParser.Extracted(contents, filePath, fe.parseSource)
    case FunctionCalls(fnName) => Some(FunctionParser.Extracted(fnName, contents, filePath, fe.parseSource))
  }

  /** The results that are collections with at least one key, in order. */
  function KeepNonEmpty(results: seq<Option<TranslationCollection>>): (r: Results)
    ensures |r| <= |results|
    ensures forall c :: c in r <==> Some(c) in results && Count(c) > 0
  {
    if results == [] then []
    else
      var rest := KeepNonEmpty(results[1..]);
      assert forall x :: x in results <==> x == results[0] || x in results[1..];
      (if results[0].Some? && Count(results[0].value) > 0 then [results[0].value] else []) + rest
  }

  /** The cache's generator for one file: every parser in turn, keeping only the
      collections that hold at least one key. */
  function Generate(fe: Frontends, parsers: seq<Parser>, contents: string, filePath: string): Results {
    KeepNonEmpty(ParserOutputs(fe, parsers, contents, filePath))
  }

  function ParserOutputs(fe: Frontends, parsers: seq<Parser>, contents: string, filePath: string): seq<Option<TranslationCollection>> {
    seq(|parsers|, i requires 0 <= i < |parsers| => ParserOutput(fe, parsers[i], contents, filePath))
  }

  /** The generator keeps exactly the parser results that are collections with at least
      one key, and never more results than there are parsers. */
  lemma GenerateKeeps(fe: Frontends, parsers: seq<Parser>, contents: string, filePath: string)
    ensures |Generate(fe, parsers, contents, filePath)| <= |parsers|
    ensures forall c :: c in Generate(fe, parsers, contents, filePath) <==>
      Count(c) > 0 && exists i :: 0 <= i < |parsers| && ParserOutput(fe, parsers[i], contents, filePath) == Some(c)
  {
    var outputs := ParserOutputs(fe, parsers, contents, filePath);
    assert forall c :: Some(c) in outputs <==> exists i :: 0 <= i < |parsers| && ParserOutput(fe, parsers[i], contents, filePath) == Some(c) by {
      forall c ensures Some(c) in outputs <==> exists i :: 0 <= i < |parsers| && ParserOutput(fe, parsers[i], contents, filePath) == Some(c) {
        if exists i :: 0 <= i < |parsers| && ParserOutput(fe, parsers[i], contents, filePath) == Some(c) {
          var i :| 0 <= i < |parsers| && ParserOutput(fe, parsers[i], contents, filePath) == Some(c);
          assert outputs[i] == Some(c);
        }
      }
    }
  }

  /** The files of every pattern, patterns in order and each pattern's files in the order
      it lists them. */
  function SourceFiles(inputs: seq<string>, files: string -> seq<(string, string)>): seq<SourceText> {
    if inputs == [] then []
    else
      var matched := files(inputs[0]);
      seq(|matched|, i requires 0 <= i < |matched| => SourceText(inputs[0], matched[i].0, matched[i].1))
        + SourceFiles(inputs[1..], files)
  }

  /** The cache key of a file. */
  function CacheKey(s: SourceText): string {
    s.pattern + ":" + s.filePath + ":" + s.contents
  }

  /** Two files with the same key are the same file with the same contents, as long as
      neither the patterns nor the paths contain `:`. */
  lemma CacheKeyInjective(s: SourceText, t: SourceText)
    requires ':' !in s.pattern && ':' !in s.filePath && ':' !in t.pattern && ':' !in t.filePath
    requires CacheKey(s) == CacheKey(t)
    ensures s == t
  {
    assert CacheKey(s) == s.pattern + ":" + (s.filePath + ":" + s.contents);
    assert CacheKey(t) == t.pattern + ":" + (t.filePath + ":" + t.contents);
    ColonSplit(s.pattern, t.pattern, s.filePath + ":" + s.contents, t.filePath + ":" + t.contents);
    ColonSplit(s.filePath, t.filePath, s.contents, t.contents);
  }

  /** A string without `:` followed by `:` is recovered from the whole. */
  lemma ColonSplit(p: string, q: string, x: string, y: string)
    requires ':' !in p && ':' !in q && p + ":" + x == q + ":" + y
    ensures p == q && x == y
  {
    var n := if |p| < |q| then |p| else |q|;
    assert (p + ":" + x)[n] == (q + ":" + y)[n];
    assert |p| == |q|;
    assert (p + ":" + x)[..|p|] == p && (q + ":" + y)[..|q|] == q;
    assert (p + ":" + x)[|p| + 1..] == x && (q + ":" + y)[|q| + 1..] == y;
  }

  /** The per-file results, one after the other, as `collectionTypes.push(...)` lays them
      out. */
  function Joined(groups: seq<Results>): Results {
    if groups == [] then [] else Joined(groups[..|groups| - 1]) + groups[|groups| - 1]
  }

  /** Every per-file result is in the joined list, and nothing else is. */
  lemma {:induction false} JoinedMembers(groups: seq<Results>)
    ensures forall c :: c in Joined(groups) <==> exists i :: 0 <= i < |groups| && c in groups[i]
  {
    if groups != [] {
      var init := groups[..|groups| - 1];
      JoinedMembers(init);
      assert forall i :: 0 <= i < |init| ==> init[i] == groups[i];
    }
  }

  /** The generator's results for every file. */
  function Generated(fe: Frontends, parsers: seq<Parser>, sources: seq<SourceText>): (r: seq<Results>)
    ensures |r| == |sources|
    ensures forall i :: 0 <= i < |r| ==> r[i] == Generate(fe, parsers, sources[i].contents, sources[i].filePath)
  {
    seq(|sources|, i requires 0 <= i < |sources| => Generate(fe, parsers, sources[i].contents, sources[i].filePath))
  }

  /** `Object.assign(values, collectionType)` for each result in turn. */
  function Combine(cts: Results): TranslationCollection
    decreases |cts|
  {
    if cts == [] then Empty() else Union(Combine(cts[..|cts| - 1]), cts[|cts| - 1])
  }

  /** A key is in the combination exactly when some result has it. */
  lemma {:induction false} CombineDomain(cts: Results, k: string)
    ensures k in Combine(cts).values <==> exists i :: 0 <= i < |cts| && k in cts[i].values
    decreases |cts|
  {
    if cts != [] {
      var init, last := cts[..|cts| - 1], cts[|cts| - 1];
      assert k in Combine(cts).values <==> k in Combine(init).values || k in last.values by {
        UnionSpec(Combine(init), last);
      }
      CombineDomain(init, k);
      if exists i :: 0 <= i < |cts| && k in cts[i].values {
        var i :| 0 <= i < |cts| && k in cts[i].values;
        if i < |cts| - 1 {
          assert k in init[i].values;
        }
      }
      if exists i :: 0 <= i < |init| && k in init[i].values {
        var i :| 0 <= i < |init| && k in init[i].values;
        assert k in cts[i].values;
      }
    }
  }

  /** For a key in several results, the entry of the last one holding it wins whole: the
      source files of earlier results are not merged in. */
  lemma {:induction false} CombineLastWins(cts: Results, j: nat, k: string)
    requires j < |cts| && k in cts[j].values
    requires forall l :: j < l < |cts| ==> k !in cts[l].values
    ensures k in Combine(cts).values && Combine(cts).values[k] == cts[j].values[k]
    decreases |cts|
  {
    var init, last := cts[..|cts| - 1], cts[|cts| - 1];
    UnionSpec(Combine(init), last);
    if j < |cts| - 1 {
      assert k !in last.values;
      CombineLastWins(init, j, k);
    }
  }

  /** Keys keep the place they got from the first result that had them: combining more
      results only appends keys. */
  lemma {:induction false} CombineKeepsPositions(cts: Results, n: nat)
    requires n <= |cts|
    ensures StartsWithSeq(Combine(cts).keys, Combine(cts[..n]).keys)
    decreases |cts|
  {
    if n < |cts| {
      var init := cts[..|cts| - 1];
      UnionSpec(Combine(init), cts[|cts| - 1]);
      assert init[..n] == cts[..n];
      CombineKeepsPositions(init, n);
    } else {
      assert cts[..n] == cts;
    }
  }

  // ---------------------------------------------------------------- post-processing

  /** `postProcessor.process(draft, extracted, existing)`; only sorting by the original
      order can throw. */
  function ProcessOne(pp: PostProcessor, collator: Collator, draft: TranslationCollection, extracted: TranslationCollection, existing: TranslationCollection): Result<TranslationCollection> {
    match pp
    case KeyAsDefaultValueProcessor => Ok(KeyAsDefaultValue.Process(draft, extracted, existing))
    case KeyAsInitialDefaultValueProcessor => Ok(KeyAsInitialDefaultValue.Process(draft, extracted, existing))
    case NullAsDefaultValueProcessor => Ok(NullAsDefaultValue.Process(draft, extracted, existing))
    case StripPrefixProcessor(prefix) => Ok(StripPrefix.Process(prefix, draft, extracted, existing))
    case SortByKeyProcessor(p) => Ok(SortByKey.Process(p, collator, draft, extracted, existing))
    case SortByOriginalOrderProcessor(p) => SortByOriginalOrder.ProcessSpec(p, collator, draft, extracted, existing)
  }

  /** The post-processors from left to right, each given the previous draft and the same
      extracted and existing collections; the first error stops the run. */
  function ProcessAll(pps: seq<PostProcessor>, collator: Collator, draft: TranslationCollection, extracted: TranslationCollection, existing: TranslationCollection): Result<TranslationCollection>
    decreases |pps|
  {
    if pps == [] then Ok(draft)
    else match ProcessOne(pps[0], collator, draft, extracted, existing)
      case Err(m) => Err(m)
      case Ok(next) => ProcessAll(pps[1..], collator, next, extracted, existing)
  }

  /** Running two lists of post-processors one after the other is running their
      concatenation. */
  lemma {:induction false} ProcessAllAppend(pps: seq<PostProcessor>, qs: seq<PostProcessor>, collator: Collator, draft: TranslationCollection, extracted: TranslationCollection, existing: TranslationCollection)
    ensures ProcessAll(pps + qs, collator, draft, extracted, existing) ==
      match ProcessAll(pps, collator, draft, extracted, existing)
      case Err(m) => Err(m)
      case Ok(next) => ProcessAll(qs, collator, next, extracted, existing)
    decreases |pps|
  {
    if pps == [] {
      assert pps + qs == qs;
    } else {
      assert (pps + qs)[1..] == pps[1..] + qs;
      match ProcessOne(pps[0], collator, draft, extracted, existing)
      case Err(m) =>
      case Ok(next) => ProcessAllAppend(pps[1..], qs, collator, next, extracted, existing);
    }
  }

  predicate NeverFails(pps: seq<PostProcessor>) {
    forall i :: 0 <= i < |pps| ==> !pps[i].SortByOriginalOrderProcessor?
  }

  /** Without the original-order processor the post-processors cannot fail, and the key
      set only changes through the prefix stripper. */
  lemma {:induction false} ProcessAllSucceeds(pps: seq<PostProcessor>, collator: Collator, draft: TranslationCollection, extracted: TranslationCollection, existing: TranslationCollection)
    requires NeverFails(pps)
    ensures ProcessAll(pps, collator, draft, extracted, existing).Ok?
    ensures (forall i :: 0 <= i < |pps| ==> !pps[i].StripPrefixProcessor?) ==>
      ProcessAll(pps, collator, draft, extracted, existing).value.values.Keys == draft.values.Keys
    decreases |pps|
  {
    if pps != [] {
      var next := ProcessOne(pps[0], collator, draft, extracted, existing);
      assert next.Ok?;
      if !pps[0].StripPrefixProcessor? {
        assert next.value.values.Keys == draft.values.Keys;
      }
      ProcessAllSucceeds(pps[1..], collator, next.value, extracted, existing);
    }
  }

  // ---------------------------------------------------------------- saving

  /** The draft for an output: `extracted.union(existing)`, so an existing entry wins for
      every key both have. */
  function Draft(extracted: TranslationCollection, existing: TranslationCollection): (r: TranslationCollection)
    ensures forall k :: k in r.values <==> k in extracted.values || k in existing.values
    ensures forall k :: k in existing.values ==> r.values[k] == existing.values[k]
    ensures forall k :: k in extracted.values && k !in existing.values ==> r.values[k] == extracted.values[k]
    ensures StartsWithSeq(r.keys, extracted.keys)
  {
    UnionSpec(extracted, existing);
    Union(extracted, existing)
  }

  /** The settings `execute` works with once a compiler is configured. */
  datatype Plan = Plan(replace: bool, postProcessors: seq<PostProcessor>, compiler: Compiler, codec: Codec,
                       collator: Collator, isDirectory: string -> bool)

  /** The file an output is written to: `strings.<extension>` inside an existing
      directory, otherwise the output path itself. */
  function OutputPath(plan: Plan, output: string): (r: string)
    ensures plan.isDirectory(output) ==>
      |r| == |output| + 9 + |Extension(plan.compiler)| && r[..|output| + 1] == output + "/"
      && r[|output| + 1..] == "strings." + Extension(plan.compiler)
    ensures !plan.isDirectory(output) ==> r == output
  {
    if plan.isDirectory(output) then output + "/" + "strings." + Extension(plan.compiler) else output
  }

  /** The translations an output already has: none when replacing or when the file does
      not exist, otherwise the compiler's reading of the file. */
  function Existing(plan: Plan, text: Option<string>): (r: Result<TranslationCollection>)
    ensures plan.replace || text.None? ==> r == Ok(Empty())
    ensures !plan.replace && text.Some? ==> r == plan.codec.parse(plan.compiler, text.value)
  {
    if !plan.replace && text.Some? then plan.codec.parse(plan.compiler, text.value) else Ok(Empty())
  }

  /** The text written for one output, given the files as they are before writing it. */
  function OutputText(plan: Plan, files: map<string, string>, output: string, extracted: TranslationCollection): Result<string> {
    var path := OutputPath(plan, output);
    match Existing(plan, if path in files then Some(files[path]) else None)
    case Err(m) => Err(m)
    case Ok(existing) =>
      match ProcessAll(plan.postProcessors, plan.collator, Draft(extracted, existing), extracted, existing)
      case Err(m) => Err(m)
      case Ok(final) => Ok(plan.codec.compile(plan.compiler, final))
  }

  /** With `replace` set, what is written does not depend on what the output held. */
  lemma ReplaceIgnoresExisting(plan: Plan, files: map<string, string>, other: map<string, string>, output: string, extracted: TranslationCollection)
    requires plan.replace
    ensures OutputText(plan, files, output, extracted) == OutputText(plan, other, output, extracted)
    ensures OutputText(plan, files, output, extracted) ==
      match ProcessAll(plan.postProcessors, plan.collator, extracted, extracted, Empty())
      case Err(m) => Err(m)
      case Ok(final) => Ok(plan.codec.compile(plan.compiler, final))
  {
    DraftWithoutExisting(extracted);
  }

  /** Without existing translations the draft is what was extracted. */
  lemma DraftWithoutExisting(c: TranslationCollection)
    ensures Draft(c, Empty()) == c
  {
    assert Entries(Empty()) == [];
  }

  /** The files after writing the outputs in order, and the error that stopped the
      writing, if any. */
  datatype Saved = Saved(files: map<string, string>, error: Option<string>)

  function SaveAll(plan: Plan, files: map<string, string>, outputs: seq<string>, extracted: TranslationCollection): (r: Saved)
    ensures files.Keys <= r.files.Keys
    ensures r.error.None? ==> forall o :: o in outputs ==> OutputPath(plan, o) in r.files
    decreases |outputs|
  {
    if outputs == [] then Saved(files, None)
    else match OutputText(plan, files, outputs[0], extracted)
      case Err(m) => Saved(files, Some(m))
      case Ok(text) =>
        var r := SaveAll(plan, files[OutputPath(plan, outputs[0]) := text], outputs[1..], extracted);
        assert forall o :: o in outputs ==> o == outputs[0] || o in outputs[1..];
        r
  }

  /** Writing one more output continues from the files the earlier ones left, unless
      they stopped at an error. */
  lemma {:induction false} SaveAllAppend(plan: Plan, files: map<string, string>, outputs: seq<string>, last: string, extracted: TranslationCollection)
    ensures var first := SaveAll(plan, files, outputs, extracted);
      SaveAll(plan, files, outputs + [last], extracted) ==
        if first.error.Some? then first else SaveAll(plan, first.files, [last], extracted)
    decreases |outputs|
  {
    if outputs == [] {
      assert outputs + [last] == [last];
    } else {
      assert (outputs + [last])[1..] == outputs[1..] + [last];
      match OutputText(plan, files, outputs[0], extracted)
      case Err(m) =>
      case Ok(text) => SaveAllAppend(plan, files[OutputPath(plan, outputs[0]) := text], outputs[1..], last, extracted);
    }
  }

  // ---------------------------------------------------------------- the ExtractTask class

  /** A file cache's loaded store, with what its keys are made from. */
  datatype Snapshot = Snapshot(entries: map<string, Results>, hash: string -> string, versionHash: string)

  /** What the cache returns for a file: the result the loaded store holds under the
      file's key when there is one, otherwise what the generator computes. */
  ghost predicate Served(v: Results, generated: Results, loaded: Option<Snapshot>, s: SourceText) {
    v == if loaded.Some? && loaded.value.hash(loaded.value.versionHash + CacheKey(s)) in loaded.value.entries
         then loaded.value.entries[loaded.value.hash(loaded.value.versionHash + CacheKey(s))]
         else generated
  }

  lemma ServedAppend(served: seq<Results>, v: Results, fe: Frontends, ps: seq<Parser>, sources: seq<SourceText>, loaded: Option<Snapshot>)
    requires |served| < |sources|
    requires forall j :: 0 <= j < |served| ==> Served(served[j], Generate(fe, ps, sources[j].contents, sources[j].filePath), loaded, sources[j])
    requires Served(v, Generate(fe, ps, sources[|served|].contents, sources[|served|].filePath), loaded, sources[|served|])
    ensures var more := served + [v];
      forall j :: 0 <= j < |more| ==> Served(more[j], Generate(fe, ps, sources[j].contents, sources[j].filePath), loaded, sources[j])
  {
  }

  /** Each file's results are served by the cache. */
  ghost predicate AllServed(served: seq<Results>, fe: Frontends, ps: seq<Parser>, sources: seq<SourceText>, loaded: Option<Snapshot>) {
    |served| == |sources| &&
    forall i :: 0 <= i < |served| ==> Served(served[i], Generate(fe, ps, sources[i].contents, sources[i].filePath), loaded, sources[i])
  }

  class ExtractTask {
    var inputs: seq<string>
    var outputs: seq<string>
    var replace: bool
    var parsers: seq<Parser>
    var postProcessors: seq<PostProcessor>
    var compiler: Option<Compiler>
    var cache: Cache
    /** The files the outputs are read from and written to. */
    const disk: Caches.Disk

    function CacheObjects(): set<object>
      reads this
    {
      match cache
      case NoCache(c) => {c}
      case CacheFile(c) => {c}
    }

    function CacheDisks(): set<object>
      reads this
    {
      match cache
      case NoCache(_) => {}
      case CacheFile(c) => {c.disk}
    }

    /** A file cache is in a consistent state. */
    ghost predicate Valid()
      reads this, CacheObjects()
    {
      cache.CacheFile? ==> cache.fileCache.Valid()
    }

    /** `new ExtractTask(inputs, outputs, options)`: `replace` is off unless the options
        turn it on; no parser, no post-processor, no compiler, and the null cache. */
    constructor(inputs: seq<string>, outputs: seq<string>, replace: Option<bool>, disk: Caches.Disk)
      ensures this.inputs == inputs && this.outputs == outputs && this.disk == disk
      ensures this.replace == (replace == Some(true))
      ensures parsers == [] && postProcessors == [] && compiler.None? && cache.NoCache?
      ensures Valid()
    {
      this.inputs := inputs;
      this.outputs := outputs;
      this.replace := replace == Some(true);
      this.disk := disk;
      parsers := [];
      postProcessors := [];
      compiler := None;
      var nullCache := new Caches.NullCache<Results>();
      cache := NoCache(nullCache);
    }

    /** `setParsers`. */
    method SetParsers(parsers: seq<Parser>) returns (r: ExtractTask)
      modifies this
      ensures r == this && this.parsers == parsers
      ensures inputs == old(inputs) && outputs == old(outputs) && replace == old(replace)
      ensures postProcessors == old(postProcessors) && compiler == old(compiler) && cache == old(cache)
    {
      this.parsers := parsers;
      r := this;
    }

    /** `setCache`. */
    method SetCache(cache: Cache) returns (r: ExtractTask)
      requires cache.CacheFile? ==> cache.fileCache.Valid()
      modifies this
      ensures r == this && this.cache == cache && Valid()
      ensures inputs == old(inputs) && outputs == old(outputs) && replace == old(replace)
      ensures parsers == old(parsers) && postProcessors == old(postProcessors) && compiler == old(compiler)
    {
      this.cache := cache;
      r := this;
    }

    /** `setPostProcessors`. */
    method SetPostProcessors(postProcessors: seq<PostProcessor>) returns (r: ExtractTask)
      modifies this
      ensures r == this && this.postProcessors == postProcessors
      ensures inputs == old(inputs) && outputs == old(outputs) && replace == old(replace)
      ensures parsers == old(parsers) && compiler == old(compiler) && cache == old(cache)
    {
      this.postProcessors := postProcessors;
      r := this;
    }

    /** `setCompiler`. */
    method SetCompiler(compiler: Compiler) returns (r: ExtractTask)
      modifies this
      ensures r == this && this.compiler == Some(compiler)
      ensures inputs == old(inputs) && outputs == old(outputs) && replace == old(replace)
      ensures parsers == old(parsers) && postProcessors == old(postProcessors) && cache == old(cache)
    {
      this.compiler := Some(compiler);
      r := this;
    }

    /** The store a file cache has loaded, with the hash and version hash its keys are
        made from; nothing for the null cache or a file cache not yet read. */
    ghost function Loaded(): Option<Snapshot>
      reads this, CacheObjects()
    {
      if cache.CacheFile? && cache.fileCache.cached.Some? && cache.fileCache.versionHash.Some?
      then Some(Snapshot(cache.fileCache.cached.value, cache.fileCache.hash, cache.fileCache.versionHash.value))
      else None
    }

    /** `extract()`: each matched file's results, through the cache, then combined in
        order with later entries winning. `served` lists what the cache returned per
        file; with the null cache that is exactly what the parsers produce. */
    method Extract(fe: Frontends, files: string -> seq<(string, string)>) returns (r: TranslationCollection, ghost served: seq<Results>)
      requires Valid()
      modifies CacheObjects()
      ensures Valid()
      ensures AllServed(served, fe, parsers, SourceFiles(inputs, files), Loaded()) && r == Combine(Joined(served))
      ensures cache.NoCache? ==> r == Combine(Joined(Generated(fe, parsers, SourceFiles(inputs, files))))
    {
      var sources := SourceFiles(inputs, files);
      var ps := parsers;
      var collectionTypes: Results := [];
      served := [];
      ghost var snap := Loaded();
      var i := 0;
      while i < |sources|
        invariant 0 <= i <= |sources| && |served| == i
        invariant Valid() && snap == Loaded()
        invariant collectionTypes == Joined(served)
        invariant forall j :: 0 <= j < i ==> Served(served[j], Generate(fe, ps, sources[j].contents, sources[j].filePath), snap, sources[j])
        invariant cache.NoCache? ==> snap.None?
        invariant cache.CacheFile? && i > 0 ==> snap.Some?
      {
        var s := sources[i];
        var v: Results;
        v, snap := Fetch(fe, ps, s);
        collectionTypes := collectionTypes + v;
        ServedAppend(served, v, fe, ps, sources, snap);
        served := served + [v];
        i := i + 1;
      }
      r := CombineAll(collectionTypes);
      if cache.NoCache? {
        assert served == Generated(fe, ps, sources);
      }
    }

    /** `this.cache.get(cacheKey, () => ...)` for one file of `extract()`: what it
        returns is served for that file, and a store loaded earlier stays as it was. */
    method Fetch(fe: Frontends, ps: seq<Parser>, s: SourceText) returns (v: Results, ghost loaded: Option<Snapshot>)
      requires Valid()
      modifies CacheObjects()
      ensures Valid() && loaded == Loaded()
      ensures old(Loaded()).Some? ==> loaded == old(Loaded())
      ensures cache.NoCache? ==> loaded.None?
      ensures cache.CacheFile? ==> loaded.Some?
      ensures Served(v, Generate(fe, ps, s.contents, s.filePath), loaded, s)
    {
      match cache {
        case NoCache(c) =>
          v := c.Get(CacheKey(s), () => Generate(fe, ps, s.contents, s.filePath));
        case CacheFile(c) =>
          v := c.Get(CacheKey(s), () => Generate(fe, ps, s.contents, s.filePath));
      }
      loaded := Loaded();
      if cache.CacheFile? && loaded.Some? {
        assert cache.fileCache.Key(CacheKey(s)) == loaded.value.hash(loaded.value.versionHash + CacheKey(s));
      }
    }

    /** The `Object.assign` loop of `extract()`. */
    static method CombineAll(collectionTypes: Results) returns (r: TranslationCollection)
      ensures r == Combine(collectionTypes)
    {
      var values := Empty();
      var j := 0;
      while j < |collectionTypes|
        invariant 0 <= j <= |collectionTypes|
        invariant values == Combine(collectionTypes[..j])
      {
        assert collectionTypes[..j + 1][..j] == collectionTypes[..j];
        values := Union(values, collectionTypes[j]);
        j := j + 1;
      }
      assert collectionTypes[..j] == collectionTypes;
      r := values;
    }

    /** `process(draft, extracted, existing)`. */
    method Process(collator: Collator, draft: TranslationCollection, extracted: TranslationCollection, existing: TranslationCollection)
      returns (r: Result<TranslationCollection>)
      ensures r == ProcessAll(postProcessors, collator, draft, extracted, existing)
    {
      var pps := postProcessors;
      var current := draft;
      var i := 0;
      assert pps[0..] == pps;
      while i < |pps|
        invariant 0 <= i <= |pps|
        invariant ProcessAll(pps[i..], collator, current, extracted, existing) == ProcessAll(pps, collator, draft, extracted, existing)
      {
        assert pps[i..][1..] == pps[i + 1..];
        var next := Apply(pps[i], collator, current, extracted, existing);
        if next.Err? {
          return Err(next.message);
        }
        current := next.value;
        i := i + 1;
      }
      r := Ok(current);
    }

    /** `postProcessor.process(draft, extracted, existing)`, running the original-order
        processor's own loop. */
    static method Apply(pp: PostProcessor, collator: Collator, draft: TranslationCollection, extracted: TranslationCollection, existing: TranslationCollection)
      returns (r: Result<TranslationCollection>)
      ensures r == ProcessOne(pp, collator, draft, extracted, existing)
    {
      match pp
      case SortByOriginalOrderProcessor(p) =>
        r := SortByOriginalOrder.Process(p, collator, draft, extracted, existing);
      case _ =>
        r := ProcessOne(pp, collator, draft, extracted, existing);
    }

    /** The loop over the outputs in `execute()`: each output's file is read unless
        replacing, merged, post-processed and written; the first error stops it. */
    method SaveOutputs(plan: Plan, extracted: TranslationCollection) returns (error: Option<string>)
      requires plan.postProcessors == postProcessors
      modifies disk
      ensures disk.files == SaveAll(plan, old(disk.files), outputs, extracted).files
      ensures error == SaveAll(plan, old(disk.files), outputs, extracted).error
    {
      ghost var target := SaveAll(plan, disk.files, outputs, extracted);
      var os := outputs;
      var i := 0;
      assert os[0..] == os;
      while i < |os|
        invariant 0 <= i <= |os|
        invariant SaveAll(plan, disk.files, os[i..], extracted) == target
      {
        assert os[i..][1..] == os[i + 1..];
        var failed := SaveOutput(plan, os[i], extracted);
        if failed.Some? {
          return failed;
        }
        i := i + 1;
      }
      error := None;
    }

    /** One output in the loop of `execute()`: its file is read unless replacing, merged,
        post-processed and written. */
    method SaveOutput(plan: Plan, output: string, extracted: TranslationCollection) returns (error: Option<string>)
      requires plan.postProcessors == postProcessors
      modifies disk
      ensures match OutputText(plan, old(disk.files), output, extracted)
        case Err(m) => error == Some(m) && disk.files == old(disk.files)
        case Ok(text) => error.None? && disk.files == old(disk.files)[OutputPath(plan, output) := text]
    {
      var outputPath := OutputPath(plan, output);
      var existing := Existing(plan, disk.Read(outputPath));
      if existing.Err? {
        return Some(existing.message);
      }
      var draft := Draft(extracted, existing.value);
      var final := Process(plan.collator, draft, extracted, existing.value);
      if final.Err? {
        return Some(final.message);
      }
      disk.WriteFile(outputPath, plan.codec.compile(plan.compiler, final.value));
      error := None;
    }

    /** `this.cache.persist()`: a file cache whose text changed writes it to its cache
        file through a temporary file; nothing else is written. */
    method PersistCache()
      requires Valid()
      modifies CacheDisks()
      ensures Valid()
      ensures cache.NoCache? || cache.fileCache.disk != disk ==> disk.files == old(disk.files)
      ensures cache.CacheFile? ==>
        var c := cache.fileCache;
        if c.originalCache == Some(c.NewCache()) then c.disk.files == old(c.disk.files)
        else c.disk.files == (old(c.disk.files) - {c.TmpFile(c.NewCache())})[c.CacheFilePath() := c.NewCache()]
    {
      match cache {
        case NoCache(c) =>
          c.Persist();
        case CacheFile(c) =>
          c.Persist();
      }
    }

    /** The cache disk once `execute()` is over, from its files `before`: untouched when
        an output failed or the cache text is the one loaded; otherwise the cache file
        holds the new text and the temporary file is gone. */
    ghost predicate CacheDiskAfter(r: Result<()>, before: map<string, string>)
      reads this, CacheObjects(), CacheDisks()
      requires Valid() && cache.CacheFile?
    {
      var c := cache.fileCache;
      if r.Err? || c.originalCache == Some(c.NewCache()) then c.disk.files == before
      else c.disk.files == (before - {c.TmpFile(c.NewCache())})[c.CacheFilePath() := c.NewCache()]
    }

    /** `execute()`: without a compiler it throws before touching anything; otherwise it
        extracts, then for each output reads what is there (unless replacing), merges,
        post-processes and writes, stopping at the first error, and persists the cache
        when every output was written. `extracted` is what the files' served results
        combine to, `served` what the cache returned per file. The files on `disk` are
        stated for a cache that does not write to `disk` itself. */
    method Execute(fe: Frontends, files: string -> seq<(string, string)>, codec: Codec, collator: Collator, isDirectory: string -> bool)
      returns (r: Result<()>, ghost extracted: TranslationCollection, ghost served: seq<Results>)
      requires Valid()
      modifies disk, CacheObjects(), CacheDisks()
      ensures Valid()
      ensures compiler.None? ==> r == Err("No compiler configured") && disk.files == old(disk.files)
      ensures compiler.None? ==> unchanged(CacheObjects()) && unchanged(CacheDisks())
      ensures compiler.Some? ==>
        AllServed(served, fe, parsers, SourceFiles(inputs, files), Loaded()) && extracted == Combine(Joined(served))
      ensures compiler.Some? && cache.NoCache? ==> extracted == Combine(Joined(Generated(fe, parsers, SourceFiles(inputs, files))))
      ensures compiler.Some? && (cache.NoCache? || cache.fileCache.disk != disk) ==>
        var plan := Plan(replace, postProcessors, compiler.value, codec, collator, isDirectory);
        var saved := SaveAll(plan, old(disk.files), outputs, extracted);
        disk.files == saved.files && (r.Err? <==> saved.error.Some?) && (r.Err? ==> r.message == saved.error.value)
      ensures compiler.Some? && cache.CacheFile? && cache.fileCache.disk != disk ==>
        CacheDiskAfter(r, old(cache.fileCache.disk.files))
    {
      if compiler.None? {
        return Err("No compiler configured"), Empty(), [];
      }
      var plan := Plan(replace, postProcessors, compiler.value, codec, collator, isDirectory);
      var found;
      assert this !in CacheObjects() && disk !in CacheObjects();
      found, served := Extract(fe, files);
      extracted := found;
      assert plan == Plan(replace, postProcessors, compiler.value, codec, collator, isDirectory);
      assert disk.files == old(disk.files);
      r := SaveAndPersist(plan, found);
    }

    /** The part of `execute()` after extraction: the outputs are written, and the cache
        is persisted only when every output was. */
    method SaveAndPersist(plan: Plan, extracted: TranslationCollection) returns (r: Result<()>)
      requires Valid() && plan.postProcessors == postProcessors
      modifies disk, CacheDisks()
      ensures Valid()
      ensures cache.NoCache? || cache.fileCache.disk != disk ==>
        var saved := SaveAll(plan, old(disk.files), outputs, extracted);
        disk.files == saved.files && (r.Err? <==> saved.error.Some?) && (r.Err? ==> r.message == saved.error.value)
      ensures cache.CacheFile? && cache.fileCache.disk != disk ==>
        CacheDiskAfter(r, old(cache.fileCache.disk.files))
    {
      ghost var saved := SaveAll(plan, disk.files, outputs, extracted);
      var error := SaveOutputs(plan, extracted);
      assert disk.files == saved.files && error == saved.error;
      if error.Some? {
        return Err(error.value);
      }
      PersistCache();
      r := Ok(());
    }
  }
}
