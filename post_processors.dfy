/** `KeyAsDefaultValuePostProcessor`: an entry whose value is the empty string gets its
    key as value. */
module KeyAsDefaultValue {
  import opened Wrappers
  import opened Collections

  function Default(key: string, val: Entry): Entry {
    if val.value == Some("") then Entry(Some(key), val.sourceFiles) else val
  }

  /** `process(draft)`; the extracted and existing collections are not read. */
  function Process(draft: TranslationCollection, extracted: TranslationCollection, existing: TranslationCollection): (r: TranslationCollection)
    ensures r.keys == draft.keys
    ensures forall k :: k in draft.values && draft.values[k].value == Some("") ==>
      r.values[k] == Entry(Some(k), draft.values[k].sourceFiles)
    ensures forall k :: k in draft.values && draft.values[k].value != Some("") ==> r.values[k] == draft.values[k]
  {
    Map(draft, Default)
  }

  /** Applying the processor twice gives what applying it once does. */
  lemma Idempotent(draft: TranslationCollection, extracted: TranslationCollection, existing: TranslationCollection)
    ensures Process(Process(draft, extracted, existing), extracted, existing) == Process(draft, extracted, existing)
  {
    var once := Process(draft, extracted, existing);
    var twice := Process(once, extracted, existing);
    assert twice.values == once.values;
  }
}

/** `KeyAsInitialDefaultValuePostProcessor`: like `KeyAsDefaultValue`, but only for keys
    the existing translations do not have. */
module KeyAsInitialDefaultValue {
  import opened Wrappers
  import opened Collections

  /** `process(draft, extracted, existing)`; `extracted` is not read. */
  function Process(draft: TranslationCollection, extracted: TranslationCollection, existing: TranslationCollection): (r: TranslationCollection)
    ensures r.keys == draft.keys
    ensures forall k :: k in draft.values && draft.values[k].value == Some("") && k !in existing.values ==>
      r.values[k] == Entry(Some(k), draft.values[k].sourceFiles)
    ensures forall k :: k in draft.values && (draft.values[k].value != Some("") || k in existing.values) ==>
      r.values[k] == draft.values[k]
  {
    Map(draft, (key: string, val: Entry) =>
      if val.value == Some("") && !Has(existing, key) then Entry(Some(key), val.sourceFiles) else val)
  }

  /** For fixed existing translations, applying the processor twice gives what applying
      it once does. */
  lemma Idempotent(draft: TranslationCollection, extracted: TranslationCollection, existing: TranslationCollection)
    ensures Process(Process(draft, extracted, existing), extracted, existing) == Process(draft, extracted, existing)
  {
    var once := Process(draft, extracted, existing);
    var twice := Process(once, extracted, existing);
    assert twice.values == once.values;
  }
}

/** `NullAsDefaultValuePostProcessor`: a key the existing translations lack gets the value
    `null` and no source files. */
module NullAsDefaultValue {
  import opened Wrappers
  import opened Collections

  /** `process(draft, extracted, existing)`; `extracted` is not read. */
  function Process(draft: TranslationCollection, extracted: TranslationCollection, existing: TranslationCollection): (r: TranslationCollection)
    ensures r.keys == draft.keys
    ensures forall k :: k in draft.values && k !in existing.values ==> r.values[k] == Entry(None, [])
    ensures forall k :: k in draft.values && k in existing.values ==> r.values[k] == draft.values[k]
  {
    Map(draft, (key: string, val: Entry) => if Get(existing, key) == None then Entry(None, []) else val)
  }

  /** For fixed existing translations, applying the processor twice gives what applying
      it once does. */
  lemma Idempotent(draft: TranslationCollection, extracted: TranslationCollection, existing: TranslationCollection)
    ensures Process(Process(draft, extracted, existing), extracted, existing) == Process(draft, extracted, existing)
  {
    var once := Process(draft, extracted, existing);
    var twice := Process(once, extracted, existing);
    assert twice.values == once.values;
  }
}

/** `StripPrefixPostProcessor`: `stripKeyPrefix` with the prefix fixed at construction. */
module StripPrefix {
  import opened Collections

  /** `process(draft)`; the extracted and existing collections are not read. */
  function Process(prefix: string, draft: TranslationCollection, extracted: TranslationCollection, existing: TranslationCollection): (r: TranslationCollection)
    ensures Count(r) <= Count(draft)
    ensures prefix == "" ==> r == draft
    ensures forall j :: 0 <= j < |draft.keys| ==> StrippedKey(draft.keys[j], prefix) in r.values
  {
    StripKeyPrefixCount(draft, prefix);
    assert prefix == "" ==> StripKeyPrefix(draft, prefix) == draft by {
      if prefix == "" { StripEmptyPrefix(draft); }
    }
    assert forall j :: 0 <= j < |draft.keys| ==> StrippedKey(draft.keys[j], prefix) in StripKeyPrefix(draft, prefix).values by {
      forall j | 0 <= j < |draft.keys| ensures StrippedKey(draft.keys[j], prefix) in StripKeyPrefix(draft, prefix).values {
        StripKeyPrefixDomain(draft, prefix, StrippedKey(draft.keys[j], prefix));
      }
    }
    StripKeyPrefix(draft, prefix)
  }
}

/** The `sortSensitivity` option shared by the two sorting post-processors, and the
    locale collator it selects, which is outside this model. */
module SortSensitivity {
  import opened Wrappers
  import opened JsArraySort

  datatype Sensitivity = Base | Accent | Case | Variant

  /** `new Intl.Collator('en', {sensitivity}).compare` for each sensitivity. */
  type Collator = Sensitivity -> Comparator

  /** `isOfTypeSortSensitivity`: one of the four names, or undefined. */
  predicate IsOfTypeSortSensitivity(v: Option<string>) {
    v.None? || v.value in ["base", "accent", "case", "variant"]
  }

  function FromName(name: string): (r: Option<Sensitivity>)
    ensures r.Some? <==> name in ["base", "accent", "case", "variant"]
  {
    if name == "base" then Some(Base)
    else if name == "accent" then Some(Accent)
    else if name == "case" then Some(Case)
    else if name == "variant" then Some(Variant)
    else None
  }

  function Name(s: Sensitivity): string {
    match s
    case Base => "base"
    case Accent => "accent"
    case Case => "case"
    case Variant => "variant"
  }

  /** The constructor's check: a valid option is kept, anything else is refused with
      the message `Unknown sortSensitivity: <value>`. */
  function Validate(v: Option<string>): (r: Result<Option<Sensitivity>>)
    ensures r.Ok? <==> IsOfTypeSortSensitivity(v)
    ensures r.Ok? && v.Some? ==> r.value.Some? && Name(r.value.value) == v.value
    ensures r.Ok? && v.None? ==> r.value == None
    ensures r.Err? ==> r.message == "Unknown sortSensitivity: " + v.value
  {
    if v.None? then Ok(None)
    else match FromName(v.value)
      case Some(s) => Ok(Some(s))
      case None => Err("Unknown sortSensitivity: " + v.value)
  }

  /** The `compareFn` handed to `sort`: the collator when a sensitivity is set, none
      (code-unit order) otherwise. */
  function CompareFn(s: Option<Sensitivity>, collator: Collator): (r: Option<Comparator>)
    ensures r.Some? <==> s.Some?
    ensures s.Some? ==> r.value == collator(s.value)
  {
    if s.Some? then Some(collator(s.value)) else None
  }

  /** The state both sorting post-processors keep: `new SortByKeyPostProcessor(v)` and
      `new SortByOriginalOrderPostProcessor(v)` validate `v` the same way and store it. */
  datatype Processor = Processor(sortSensitivity: Option<Sensitivity>)

  /** The constructor of either sorting post-processor. */
  function Create(v: Option<string>): (r: Result<Processor>)
    ensures r.Ok? <==> IsOfTypeSortSensitivity(v)
    ensures r.Ok? ==> r.value.sortSensitivity.Some? == v.Some?
    ensures r.Ok? && v.Some? ==> Name(r.value.sortSensitivity.value) == v.value
    ensures r.Err? ==> r.message == "Unknown sortSensitivity: " + v.value
  {
    match Validate(v)
    case Ok(s) => Ok(Processor(s))
    case Err(m) => Err(m)
  }
}

/** `SortByKeyPostProcessor`: sorts the draft's keys. */
module SortByKey {
  import opened Wrappers
  import opened JsArraySort
  import opened Collections
  import opened SortSensitivity

  /** `process(draft)`: the same entries, only the key order changes; the extracted and
      existing collections are not read. */
  function Process(p: Processor, collator: Collator, draft: TranslationCollection, extracted: TranslationCollection, existing: TranslationCollection): (r: TranslationCollection)
    ensures r.values == draft.values
    ensures multiset(r.keys) == multiset(draft.keys)
  {
    Sort(draft, CompareFn(p.sortSensitivity, collator))
  }

  /** With a consistent collator, the keys are sorted, and keys the collator finds equal
      keep their draft order. */
  lemma ProcessSorted(p: Processor, collator: Collator, draft: TranslationCollection, extracted: TranslationCollection, existing: TranslationCollection)
    requires p.sortSensitivity.Some? ==> Consistent(collator(p.sortSensitivity.value))
    ensures Sorted(Process(p, collator, draft, extracted, existing).keys, ComparatorOf(CompareFn(p.sortSensitivity, collator)))
    ensures StableFrom(Process(p, collator, draft, extracted, existing).keys, draft.keys, ComparatorOf(CompareFn(p.sortSensitivity, collator)))
  {
    SortSpec(draft, CompareFn(p.sortSensitivity, collator));
  }

  predicate StartsUpper(s: string) { s != [] && 'A' <= s[0] <= 'Z' }
  predicate StartsLower(s: string) { s != [] && 'a' <= s[0] <= 'z' }

  /** Without a sensitivity, a key starting with an upper-case letter comes before every
      key starting with a lower-case one. */
  lemma DefaultPutsUpperFirst(collator: Collator, draft: TranslationCollection, extracted: TranslationCollection, existing: TranslationCollection)
    ensures forall i, j :: 0 <= i < j < |Process(Processor(None), collator, draft, extracted, existing).keys| ==>
      !(StartsLower(Process(Processor(None), collator, draft, extracted, existing).keys[i]) &&
        StartsUpper(Process(Processor(None), collator, draft, extracted, existing).keys[j]))
  {
    var ks := Process(Processor(None), collator, draft, extracted, existing).keys;
    ProcessSorted(Processor(None), collator, draft, extracted, existing);
    forall i, j | 0 <= i < j < |ks| ensures !(StartsLower(ks[i]) && StartsUpper(ks[j])) {
      assert CompareCodeUnits(ks[i], ks[j]) <= 0;
    }
  }
}
