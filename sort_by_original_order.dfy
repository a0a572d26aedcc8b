/** `SortByOriginalOrderPostProcessor`: the existing translations' keys, split at dots,
    are arranged in a tree (`TranslationMatrix`); the sorted extracted keys are merged
    into it, and the flattened tree gives the order of the result. */
module SortByOriginalOrder {
  import opened Wrappers
  import opened JsString
  import opened JsArraySort
  import opened Collections
  import opened SortSensitivity

  /** A node of the `TranslationMatrix`: a key part leads either to a leaf (a full key
      ends there) or to a nested group. A group's children keep the order in which they
      were first assigned, as the properties of a JavaScript object do. */
  datatype KeyTree = Leaf | Group(children: seq<Node>)
  datatype Node = Node(name: string, tree: KeyTree)

  /** `path[name]`: the subtree under the child called `name`, if there is one. */
  function Lookup(cs: seq<Node>, name: string): (r: Option<KeyTree>)
    ensures r.None? <==> forall i :: 0 <= i < |cs| ==> cs[i].name != name
    ensures r.Some? ==> exists i :: 0 <= i < |cs| && cs[i].name == name && cs[i].tree == r.value
  {
    if cs == [] then None
    else if cs[0].name == name then Some(cs[0].tree)
    else Lookup(cs[1..], name)
  }

  /** `path[name] = t`: a present child is replaced in its place, a new one is appended. */
  function Assign(cs: seq<Node>, name: string, t: KeyTree): (r: seq<Node>)
    ensures Lookup(r, name) == Some(t)
    ensures forall n :: n != name ==> Lookup(r, n) == Lookup(cs, n)
    ensures Lookup(cs, name).Some? ==> |r| == |cs| && forall i :: 0 <= i < |cs| ==> r[i].name == cs[i].name
    ensures Lookup(cs, name).None? ==> r == cs + [Node(name, t)]
  {
    if cs == [] then [Node(name, t)]
    else if cs[0].name == name then
      AssignHere(cs, name, t);
      [Node(name, t)] + cs[1..]
    else
      var rest := Assign(cs[1..], name, t);
      AssignCons(cs, name, t, rest);
      [cs[0]] + rest
  }

  /** What `Assign(cs, name, t)` promises of its result `r`. */
  ghost predicate AssignSpec(cs: seq<Node>, name: string, t: KeyTree, r: seq<Node>)
  {
    && Lookup(r, name) == Some(t)
    && (forall n :: n != name ==> Lookup(r, n) == Lookup(cs, n))
    && (Lookup(cs, name).Some? ==> |r| == |cs| && forall i :: 0 <= i < |cs| ==> r[i].name == cs[i].name)
    && (Lookup(cs, name).None? ==> r == cs + [Node(name, t)])
  }

  lemma AssignHere(cs: seq<Node>, name: string, t: KeyTree)
    requires cs != [] && cs[0].name == name
    ensures AssignSpec(cs, name, t, [Node(name, t)] + cs[1..])
  {
    var r := [Node(name, t)] + cs[1..];
    assert r[0] == Node(name, t) && r[1..] == cs[1..];
  }

  lemma AssignCons(cs: seq<Node>, name: string, t: KeyTree, rest: seq<Node>)
    requires cs != [] && cs[0].name != name
    requires AssignSpec(cs[1..], name, t, rest)
    ensures AssignSpec(cs, name, t, [cs[0]] + rest)
  {
    var r := [cs[0]] + rest;
    assert r[0] == cs[0] && r[1..] == rest;
    if Lookup(cs, name).None? {
      assert cs == [cs[0]] + cs[1..];
    }
  }

  /** The chain of fresh groups `path = path[part] = {}` builds for the remaining parts,
      ending in a leaf. */
  function Branch(parts: seq<string>): KeyTree
  {
    if parts == [] then Leaf else Group([Node(parts[0], Branch(parts[1..]))])
  }

  /** `p` leads from the group `cs` to a leaf. */
  ghost predicate IsPath(cs: seq<Node>, p: seq<string>)
    decreases |p|, 1, |cs|
  {
    && cs != [] && |p| >= 1
    && ((cs[0].name == p[0] && IsTreePath(cs[0].tree, p[1..])) || IsPath(cs[1..], p))
  }

  /** `q` leads from the tree `t` to a leaf. */
  ghost predicate IsTreePath(t: KeyTree, q: seq<string>)
    decreases |q|, 2, 0
  {
    match t
    case Leaf => q == []
    case Group(cs) => IsPath(cs, q)
  }

  /** The only path through a branch is the parts it was built from. */
  lemma {:induction false} BranchPath(parts: seq<string>, q: seq<string>)
    ensures IsTreePath(Branch(parts), q) <==> q == parts
  {
    if parts != [] {
      var cs := [Node(parts[0], Branch(parts[1..]))];
      if q != [] {
        BranchPath(parts[1..], q[1..]);
        assert IsPath(cs[1..], q) == false;
        assert q == parts <==> q[0] == parts[0] && q[1..] == parts[1..];
      }
    }
  }

  /** A path through an assignment's result existed before or goes through the new child. */
  lemma {:induction false} AssignPath(cs: seq<Node>, name: string, t: KeyTree, p: seq<string>)
    requires IsPath(Assign(cs, name, t), p)
    ensures IsPath(cs, p) || (p[0] == name && IsTreePath(t, p[1..]))
  {
    var r := Assign(cs, name, t);
    if cs != [] && cs[0].name != name {
      assert r[0] == cs[0] && r[1..] == Assign(cs[1..], name, t);
      if !(r[0].name == p[0] && IsTreePath(r[0].tree, p[1..])) {
        AssignPath(cs[1..], name, t, p);
      }
    } else if cs != [] {
      assert r[1..] == cs[1..];
    }
  }

  /** A path below a child found by `Lookup` is a path of the group. */
  lemma {:induction false} LookupPath(cs: seq<Node>, name: string, t: KeyTree, q: seq<string>)
    requires Lookup(cs, name) == Some(t) && IsTreePath(t, q)
    ensures IsPath(cs, [name] + q)
  {
    var p := [name] + q;
    assert p[0] == name && p[1..] == q;
    if cs[0].name != name {
      LookupPath(cs[1..], name, t, q);
    }
  }

  /** One existing key, split at dots, placed in the matrix: every part before the last
      gets a fresh group (replacing whatever was there) and the last part a leaf. */
  function InsertExisting(cs: seq<Node>, parts: seq<string>): (r: seq<Node>)
    requires |parts| >= 1
    ensures Lookup(r, parts[0]) == Some(Branch(parts[1..]))
    ensures forall n :: n != parts[0] ==> Lookup(r, n) == Lookup(cs, n)
  {
    Assign(cs, parts[0], Branch(parts[1..]))
  }

  lemma InsertExistingPath(cs: seq<Node>, parts: seq<string>, p: seq<string>)
    requires |parts| >= 1 && IsPath(InsertExisting(cs, parts), p)
    ensures IsPath(cs, p) || p == parts
  {
    AssignPath(cs, parts[0], Branch(parts[1..]), p);
    if !IsPath(cs, p) {
      BranchPath(parts[1..], p[1..]);
      assert p == [p[0]] + p[1..];
    }
  }

  /** One extracted key, split at dots, merged into the matrix: a missing part gets a
      fresh group (or a leaf when it is the last part); a present group is walked into;
      a leaf met before the last part is refused with `Unexpected key: <key>`. When the
      last part is already present, leaf or group, nothing changes. */
  function InsertExtracted(cs: seq<Node>, parts: seq<string>, key: string): (r: Result<seq<Node>>)
    requires |parts| >= 1
    ensures r.Err? ==> r.message == "Unexpected key: " + key
    decreases |parts|
  {
    match Lookup(cs, parts[0])
    case None => Ok(Assign(cs, parts[0], Branch(parts[1..])))
    case Some(Leaf) => if |parts| > 1 then Err("Unexpected key: " + key) else Ok(cs)
    case Some(Group(sub)) =>
      if |parts| == 1 then Ok(cs)
      else match InsertExtracted(sub, parts[1..], key)
        case Ok(sub') => Ok(Assign(cs, parts[0], Group(sub')))
        case Err(m) => Err(m)
  }

  /** Merging an extracted key adds no path other than the key's own parts. */
  lemma {:induction false} InsertExtractedPath(cs: seq<Node>, parts: seq<string>, key: string, p: seq<string>)
    requires |parts| >= 1 && InsertExtracted(cs, parts, key).Ok?
    requires IsPath(InsertExtracted(cs, parts, key).value, p)
    ensures IsPath(cs, p) || p == parts
    decreases |parts|
  {
    assert parts == [parts[0]] + parts[1..];
    match Lookup(cs, parts[0])
    case None =>
      InsertExistingPath(cs, parts, p);
    case Some(Leaf) =>
    case Some(Group(sub)) =>
      if |parts| > 1 {
        var sub' := InsertExtracted(sub, parts[1..], key).value;
        AssignPath(cs, parts[0], Group(sub'), p);
        if p[0] == parts[0] && IsPath(sub', p[1..]) {
          InsertExtractedPath(sub, parts[1..], key, p[1..]);
          assert p == [parts[0]] + p[1..];
          if IsPath(sub, p[1..]) {
            LookupPath(cs, parts[0], Group(sub), p[1..]);
          }
        }
      }
  }

  /** The `reduce` over the existing keys that builds the matrix, continued from `cs`. */
  function BuildFrom(cs: seq<Node>, keys: seq<string>): seq<Node>
    decreases |keys|
  {
    if keys == [] then cs else BuildFrom(InsertExisting(cs, Split(keys[0], '.')), keys[1..])
  }

  /** The extracted keys merged one after another into the matrix `cs`; the first
      refused key ends the walk. */
  function MergeFrom(cs: seq<Node>, keys: seq<string>): Result<seq<Node>>
    decreases |keys|
  {
    if keys == [] then Ok(cs)
    else match InsertExtracted(cs, Split(keys[0], '.'), keys[0])
      case Err(m) => Err(m)
      case Ok(t) => MergeFrom(t, keys[1..])
  }

  /** Every path of the built matrix spells an existing key or one of the starting
      matrix's paths. */
  lemma {:induction false} BuildFromPath(cs: seq<Node>, keys: seq<string>, p: seq<string>)
    requires IsPath(BuildFrom(cs, keys), p)
    ensures IsPath(cs, p) || Join(p, '.') in keys
    decreases |keys|
  {
    if keys != [] {
      var parts := Split(keys[0], '.');
      BuildFromPath(InsertExisting(cs, parts), keys[1..], p);
      if IsPath(InsertExisting(cs, parts), p) {
        InsertExistingPath(cs, parts, p);
        JoinSplit(keys[0], '.');
      }
    }
  }

  lemma {:induction false} MergeFromPath(cs: seq<Node>, keys: seq<string>, p: seq<string>)
    requires MergeFrom(cs, keys).Ok? && IsPath(MergeFrom(cs, keys).value, p)
    ensures IsPath(cs, p) || Join(p, '.') in keys
    decreases |keys|
  {
    if keys != [] {
      var parts := Split(keys[0], '.');
      var t := InsertExtracted(cs, parts, keys[0]).value;
      MergeFromPath(t, keys[1..], p);
      if IsPath(t, p) {
        InsertExtractedPath(cs, parts, keys[0], p);
        JoinSplit(keys[0], '.');
      }
    }
  }

  /** A refusal names one of the merged keys. */
  lemma {:induction false} MergeFromError(cs: seq<Node>, keys: seq<string>)
    requires MergeFrom(cs, keys).Err?
    ensures exists k :: k in keys && MergeFrom(cs, keys).message == "Unexpected key: " + k
    decreases |keys|
  {
    match InsertExtracted(cs, Split(keys[0], '.'), keys[0])
    case Err(m) =>
    case Ok(t) =>
      MergeFromError(t, keys[1..]);
  }

  /** `flattenKeys` as evidently intended: the leaves in tree order, each the full names
      along its path joined with dots. */
  function Flatten(cs: seq<Node>, path: seq<string>): seq<string>
    decreases cs
  {
    if cs == [] then []
    else
      (match cs[0].tree
       case Leaf => [Join(path + [cs[0].name], '.')]
       case Group(sub) => Flatten(sub, path + [cs[0].name]))
      + Flatten(cs[1..], path)
  }

  /** Every flattened key is the path prefix followed by a path of the group. */
  lemma {:induction false} FlattenPath(cs: seq<Node>, path: seq<string>, k: string) returns (p: seq<string>)
    requires k in Flatten(cs, path)
    ensures IsPath(cs, p) && k == Join(path + p, '.')
    decreases cs
  {
    var name := cs[0].name;
    var head := match cs[0].tree
      case Leaf => [Join(path + [name], '.')]
      case Group(sub) => Flatten(sub, path + [name]);
    assert Flatten(cs, path) == head + Flatten(cs[1..], path);
    if k in head {
      match cs[0].tree
      case Leaf =>
        p := [name];
        assert p[1..] == [];
      case Group(sub) =>
        var q := FlattenPath(sub, path + [name], k);
        p := [name] + q;
        assert p[0] == name && p[1..] == q;
        assert path + [name] + q == path + p;
    } else {
      p := FlattenPath(cs[1..], path, k);
    }
  }

  /** The value written for a flattened key: `extracted.get(k) ?? existing.get(k)`. The
      last case does not arise for a key of the matrix (see `ProcessKeys`). */
  function Resolve(k: string, extracted: TranslationCollection, existing: TranslationCollection): Entry
  {
    match Get(extracted, k)
    case Some(e) => e
    case None =>
      match Get(existing, k)
      case Some(e) => e
      case None => Entry(None, [])
  }

  /** The assignments of the final `reduce`, one per flattened key. */
  function Assignments(keys: seq<string>, extracted: TranslationCollection, existing: TranslationCollection): (pairs: seq<(string, Entry)>)
    ensures KeysOf(pairs) == keys
    ensures forall i :: 0 <= i < |pairs| ==> pairs[i].1 == Resolve(pairs[i].0, extracted, existing)
  {
    seq(|keys|, i requires 0 <= i < |keys| => (keys[i], Resolve(keys[i], extracted, existing)))
  }

  /** The final `reduce`: each flattened key assigned in turn to a new object. */
  function Rebuild(keys: seq<string>, extracted: TranslationCollection, existing: TranslationCollection): (r: TranslationCollection)
    ensures r.keys == FirstOccurrences(keys, {})
    ensures forall k :: k in r.values <==> k in keys
    ensures forall k :: k in r.values ==> r.values[k] == Resolve(k, extracted, existing)
  {
    var pairs := Assignments(keys, extracted, existing);
    var r := PutAll(Empty(), pairs);
    assert Empty().values.Keys == {};
    PutAllKeys(Empty(), pairs);
    assert r.keys == FirstOccurrences(keys, {});
    PutAllDomain(Empty(), pairs);
    assert forall k :: k in r.values <==> k in keys;
    assert forall k :: k in r.values ==> r.values[k] == Resolve(k, extracted, existing) by {
      forall k | k in r.values ensures r.values[k] == Resolve(k, extracted, existing) {
        PutAllKeyed(Empty(), pairs, k => Resolve(k, extracted, existing), k);
      }
    }
    r
  }

  /** `process(draft, extracted, existing)`: `draft` is replaced, not read. */
  function ProcessSpec(p: Processor, collator: Collator, draft: TranslationCollection, extracted: TranslationCollection, existing: TranslationCollection): Result<TranslationCollection>
  {
    var sorted := Sort(extracted, CompareFn(p.sortSensitivity, collator));
    match MergeFrom(BuildFrom([], existing.keys), sorted.keys)
    case Err(m) => Err(m)
    case Ok(t) => Ok(Rebuild(Flatten(t, []), extracted, existing))
  }

  /** `process`, step by step: the matrix of the existing keys, the sorted extracted keys
      merged into it, the flattened keys and the rebuilt collection. */
  method Process(p: Processor, collator: Collator, draft: TranslationCollection, extracted: TranslationCollection, existing: TranslationCollection)
    returns (r: Result<TranslationCollection>)
    ensures r == ProcessSpec(p, collator, draft, extracted, existing)
  {
    var existingKeys := existing.keys;
    var matrix: seq<Node> := [];
    var i := 0;
    while i < |existingKeys|
      invariant 0 <= i <= |existingKeys|
      invariant BuildFrom(matrix, existingKeys[i..]) == BuildFrom([], existingKeys)
    {
      assert existingKeys[i..][1..] == existingKeys[i + 1..];
      matrix := InsertExisting(matrix, Split(existingKeys[i], '.'));
      i := i + 1;
    }
    assert existingKeys[i..] == [];
    var sortedKeys := Sort(extracted, CompareFn(p.sortSensitivity, collator)).keys;
    var j := 0;
    while j < |sortedKeys|
      invariant 0 <= j <= |sortedKeys|
      invariant MergeFrom(matrix, sortedKeys[j..]) == MergeFrom(BuildFrom([], existingKeys), sortedKeys)
    {
      assert sortedKeys[j..][1..] == sortedKeys[j + 1..];
      var step := InsertExtracted(matrix, Split(sortedKeys[j], '.'), sortedKeys[j]);
      if step.Err? {
        return Err(step.message);
      }
      matrix := step.value;
      j := j + 1;
    }
    assert sortedKeys[j..] == [];
    var flattened := Flatten(matrix, []);
    var acc := Empty();
    ghost var pairs := Assignments(flattened, extracted, existing);
    var n := 0;
    while n < |flattened|
      invariant 0 <= n <= |flattened|
      invariant PutAll(acc, pairs[n..]) == PutAll(Empty(), pairs)
    {
      assert pairs[n..][1..] == pairs[n + 1..];
      assert pairs[n] == (flattened[n], Resolve(flattened[n], extracted, existing));
      acc := Put(acc, flattened[n], Resolve(flattened[n], extracted, existing));
      n := n + 1;
    }
    assert pairs[n..] == [];
    r := Ok(acc);
  }

  /** Every key of the result is an existing or an extracted key, and its entry is the
      extracted one when there is one, the existing one otherwise. */
  lemma ProcessEntries(p: Processor, collator: Collator, draft: TranslationCollection, extracted: TranslationCollection, existing: TranslationCollection)
    requires ProcessSpec(p, collator, draft, extracted, existing).Ok?
    ensures forall k :: k in ProcessSpec(p, collator, draft, extracted, existing).value.values ==>
      (k in extracted.values || k in existing.values)
    ensures forall k :: k in ProcessSpec(p, collator, draft, extracted, existing).value.values ==>
      ProcessSpec(p, collator, draft, extracted, existing).value.values[k] ==
        (if k in extracted.values then extracted.values[k] else existing.values[k])
  {
    var r := ProcessSpec(p, collator, draft, extracted, existing).value;
    var sorted := Sort(extracted, CompareFn(p.sortSensitivity, collator)).keys;
    var built := BuildFrom([], existing.keys);
    var t := MergeFrom(built, sorted).value;
    assert r == Rebuild(Flatten(t, []), extracted, existing);
    forall k | k in r.values ensures k in extracted.values || k in existing.values {
      var path := FlattenPath(t, [], k);
      assert [] + path == path;
      MergeFromPath(built, sorted, path);
      if IsPath(built, path) {
        BuildFromPath([], existing.keys, path);
      } else {
        assert k in multiset(sorted);
      }
    }
  }

  /** A refused merge names an extracted key. */
  lemma ProcessError(p: Processor, collator: Collator, draft: TranslationCollection, extracted: TranslationCollection, existing: TranslationCollection)
    requires ProcessSpec(p, collator, draft, extracted, existing).Err?
    ensures exists k :: (k in extracted.values
      && ProcessSpec(p, collator, draft, extracted, existing).message == "Unexpected key: " + k)
  {
    var sorted := Sort(extracted, CompareFn(p.sortSensitivity, collator)).keys;
    MergeFromError(BuildFrom([], existing.keys), sorted);
    var k :| k in sorted && MergeFrom(BuildFrom([], existing.keys), sorted).message == "Unexpected key: " + k;
    assert k in multiset(sorted);
  }

  /** One leaf per key, in order: the matrix of keys that contain no dot. */
  function Leaves(ks: seq<string>): (cs: seq<Node>)
    ensures |cs| == |ks|
    ensures forall i :: 0 <= i < |ks| ==> cs[i] == Node(ks[i], Leaf)
  {
    seq(|ks|, i requires 0 <= i < |ks| => Node(ks[i], Leaf))
  }

  ghost predicate DotFree(ks: seq<string>) {
    forall i :: 0 <= i < |ks| ==> '.' !in ks[i]
  }

  /** Placing a dot-free existing key in a matrix of leaves appends a leaf unless the
      key is there. */
  lemma PlaceExistingLeaf(a: seq<string>, k: string)
    requires '.' !in k
    ensures InsertExisting(Leaves(a), Split(k, '.')) == Leaves(if k in a then a else a + [k])
  {
    SplitWithoutSeparator(k, '.');
    var cs := Leaves(a);
    if k in a {
      AssignLeaf(a, k);
    } else {
      assert Lookup(cs, k).None?;
      assert cs + [Node(k, Leaf)] == Leaves(a + [k]);
    }
  }

  /** The same for an extracted key. */
  lemma PlaceExtractedLeaf(a: seq<string>, k: string)
    requires '.' !in k
    ensures InsertExtracted(Leaves(a), Split(k, '.'), k) == Ok(Leaves(if k in a then a else a + [k]))
  {
    SplitWithoutSeparator(k, '.');
    var cs := Leaves(a);
    if k in a {
      LookupLeaf(a, k);
    } else {
      assert Lookup(cs, k).None?;
      assert cs + [Node(k, Leaf)] == Leaves(a + [k]);
    }
  }

  lemma {:induction false} LookupLeaf(a: seq<string>, k: string)
    requires k in a
    ensures Lookup(Leaves(a), k) == Some(Leaf)
  {
    if a[0] != k {
      assert Leaves(a)[1..] == Leaves(a[1..]);
      LookupLeaf(a[1..], k);
    }
  }

  lemma {:induction false} AssignLeaf(a: seq<string>, k: string)
    requires k in a
    ensures Assign(Leaves(a), k, Leaf) == Leaves(a)
  {
    var cs := Leaves(a);
    if a[0] != k {
      assert cs[1..] == Leaves(a[1..]);
      AssignLeaf(a[1..], k);
      assert cs == [cs[0]] + cs[1..];
    } else {
      assert cs == [cs[0]] + cs[1..];
    }
  }

  /** Building from dot-free keys lists each key once, in order of first occurrence;
      `seen` holds the keys already placed. */
  lemma {:induction false} BuildLeaves(a: seq<string>, b: seq<string>, seen: set<string>)
    requires DotFree(b)
    requires forall x :: x in a <==> x in seen
    ensures BuildFrom(Leaves(a), b) == Leaves(a + FirstOccurrences(b, seen))
    decreases |b|
  {
    if b == [] {
      assert a + [] == a;
    } else {
      var k := b[0];
      var a' := if k in a then a else a + [k];
      var seen' := if k in a then seen else seen + {k};
      assert BuildFrom(Leaves(a), b) == BuildFrom(Leaves(a'), b[1..]) by {
        assert '.' !in k;
        PlaceExistingLeaf(a, k);
      }
      assert a' + FirstOccurrences(b[1..], seen') == a + FirstOccurrences(b, seen) by {
        LeafStep(a, b, seen);
      }
      assert DotFree(b[1..]);
      BuildLeaves(a', b[1..], seen');
    }
  }

  /** The bookkeeping shared by the two inductions below. */
  lemma LeafStep(a: seq<string>, b: seq<string>, seen: set<string>)
    requires b != []
    requires forall x :: x in a <==> x in seen
    ensures b[0] in a ==> a + FirstOccurrences(b[1..], seen) == a + FirstOccurrences(b, seen)
    ensures b[0] !in a ==> a + [b[0]] + FirstOccurrences(b[1..], seen + {b[0]}) == a + FirstOccurrences(b, seen)
  {
    if b[0] !in a {
      var rest := FirstOccurrences(b[1..], seen + {b[0]});
      assert FirstOccurrences(b, seen) == [b[0]] + rest;
      assert a + [b[0]] + rest == a + ([b[0]] + rest);
    }
  }

  /** Merging dot-free keys into leaves appends the new ones in order. */
  lemma {:induction false} MergeLeaves(a: seq<string>, b: seq<string>, seen: set<string>)
    requires DotFree(b)
    requires forall x :: x in a <==> x in seen
    ensures MergeFrom(Leaves(a), b) == Ok(Leaves(a + FirstOccurrences(b, seen)))
    decreases |b|
  {
    if b == [] {
      assert a + [] == a;
    } else {
      var k := b[0];
      var a' := if k in a then a else a + [k];
      var seen' := if k in a then seen else seen + {k};
      assert MergeFrom(Leaves(a), b) == MergeFrom(Leaves(a'), b[1..]) by {
        assert '.' !in k;
        PlaceExtractedLeaf(a, k);
      }
      assert a' + FirstOccurrences(b[1..], seen') == a + FirstOccurrences(b, seen) by {
        LeafStep(a, b, seen);
      }
      assert DotFree(b[1..]);
      MergeLeaves(a', b[1..], seen');
    }
  }

  lemma {:induction false} FlattenLeaves(ks: seq<string>)
    ensures Flatten(Leaves(ks), []) == ks
  {
    if ks != [] {
      assert Leaves(ks)[1..] == Leaves(ks[1..]);
      assert [] + [ks[0]] == [ks[0]];
      FlattenLeaves(ks[1..]);
    }
  }

  /** With no dot in any key, the result keeps the existing keys in their order and
      appends the extracted keys they lack, in sorted order. */
  lemma ProcessFlatKeys(p: Processor, collator: Collator, draft: TranslationCollection, extracted: TranslationCollection, existing: TranslationCollection)
    requires DotFree(existing.keys) && DotFree(extracted.keys)
    ensures ProcessSpec(p, collator, draft, extracted, existing).Ok?
    ensures ProcessSpec(p, collator, draft, extracted, existing).value.keys ==
      existing.keys + FirstOccurrences(Sort(extracted, CompareFn(p.sortSensitivity, collator)).keys, existing.values.Keys)
  {
    var sorted := Sort(extracted, CompareFn(p.sortSensitivity, collator)).keys;
    var e := existing.keys;
    var n := FirstOccurrences(sorted, existing.values.Keys);
    assert BuildFrom([], e) == Leaves(e) by {
      assert Leaves([]) == [];
      BuildLeaves([], e, {});
      FirstOccurrencesOfDistinct(e, {});
      assert [] + e == e;
    }
    assert MergeFrom(Leaves(e), sorted) == Ok(Leaves(e + n)) by {
      assert DotFree(sorted) by {
        forall i | 0 <= i < |sorted| ensures '.' !in sorted[i] {
          assert sorted[i] in multiset(extracted.keys);
        }
      }
      MergeLeaves(e, sorted, existing.values.Keys);
    }
    assert Flatten(Leaves(e + n), []) == e + n by {
      FlattenLeaves(e + n);
    }
    assert Distinct(e + n) by {
      FirstOccurrencesDistinct(sorted, existing.values.Keys);
      forall i, j | 0 <= i < j < |e + n| ensures (e + n)[i] != (e + n)[j] {
        if j >= |e| && i < |e| {
          assert (e + n)[j] in n;
        }
      }
    }
    ProcessKeysVia(p, collator, draft, extracted, existing, Leaves(e + n), e + n);
  }

  /** The message of the `TypeError` that `Object.keys(undefined)` raises. */
  const UndefinedToObject := "Cannot convert undefined or null to object"

  /** `flattenKeys` as written: the callback destructures each property name, so `keyPart`
      is its first character (undefined for the empty name, which the lookup turns into
      the property "undefined" and `join` into the empty string). That character is looked
      up in the same group and written into the path; a lookup that finds nothing is
      handed to `Object.keys`, which throws. */
  function FlattenAsWritten(group: seq<Node>, i: nat, path: seq<string>): Result<seq<string>>
    requires i <= |group|
    decreases group, |group| - i
  {
    if i == |group| then Ok([])
    else
      var name := group[i].name;
      var part := if name == "" then "" else name[..1];
      var here := match Lookup(group, if name == "" then "undefined" else part)
        case None => Err(UndefinedToObject)
        case Some(Leaf) => Ok([Join(path + [part], '.')])
        case Some(Group(sub)) => FlattenAsWritten(sub, 0, path + [part]);
      match here
      case Err(m) => Err(m)
      case Ok(ks) =>
        match FlattenAsWritten(group, i + 1, path)
        case Err(m) => Err(m)
        case Ok(rest) => Ok(ks + rest)
  }

  /** `process` with `flattenKeys` as written. */
  function ProcessAsWrittenSpec(p: Processor, collator: Collator, draft: TranslationCollection, extracted: TranslationCollection, existing: TranslationCollection): Result<TranslationCollection>
  {
    var sorted := Sort(extracted, CompareFn(p.sortSensitivity, collator));
    match MergeFrom(BuildFrom([], existing.keys), sorted.keys)
    case Err(m) => Err(m)
    case Ok(t) =>
      match FlattenAsWritten(t, 0, [])
      case Err(m) => Err(m)
      case Ok(ks) => Ok(Rebuild(ks, extracted, existing))
  }

  /** Every name in the matrix is a single character and unique in its group, as in the
      key sets where the two flattenings agree. */
  ghost predicate OneCharNames(cs: seq<Node>)
    decreases cs
  {
    && (forall i :: 0 <= i < |cs| ==> |cs[i].name| == 1)
    && (forall i, j :: 0 <= i < j < |cs| ==> cs[i].name != cs[j].name)
    && (forall i :: 0 <= i < |cs| && cs[i].tree.Group? ==> OneCharNames(cs[i].tree.children))
  }

  lemma {:induction false} LookupUnique(cs: seq<Node>, i: nat)
    requires i < |cs|
    requires forall j, k :: 0 <= j < k < |cs| ==> cs[j].name != cs[k].name
    ensures Lookup(cs, cs[i].name) == Some(cs[i].tree)
  {
    if i > 0 {
      assert cs[0].name != cs[i].name;
      assert cs[1..][i - 1] == cs[i];
      LookupUnique(cs[1..], i - 1);
    }
  }

  /** With one-character names, unique within each group, the code as written flattens
      like the corrected version. */
  lemma {:induction false} FlattenAsWrittenAgrees(group: seq<Node>, i: nat, path: seq<string>)
    requires i <= |group| && OneCharNames(group)
    ensures FlattenAsWritten(group, i, path) == Ok(Flatten(group[i..], path))
    decreases group, |group| - i
  {
    if i < |group| {
      var name := group[i].name;
      assert name[..1] == name;
      LookupUnique(group, i);
      FlattenFrom(group, i, path);
      FlattenAsWrittenAgrees(group, i + 1, path);
      match group[i].tree
      case Leaf =>
      case Group(sub) =>
        FlattenAsWrittenAgrees(sub, 0, path + [name]);
        assert sub[0..] == sub;
    }
  }

  /** `Flatten` of a suffix: the node at `i`, then the ones after it. */
  lemma FlattenFrom(group: seq<Node>, i: nat, path: seq<string>)
    requires i < |group|
    ensures Flatten(group[i..], path) ==
      (match group[i].tree
       case Leaf => [Join(path + [group[i].name], '.')]
       case Group(sub) => Flatten(sub, path + [group[i].name]))
      + Flatten(group[i + 1..], path)
  {
    assert group[i..][0] == group[i] && group[i..][1..] == group[i + 1..];
  }

  /** Every dot-separated part of the key is one character long. */
  ghost predicate OneCharKey(k: string) {
    forall i :: 0 <= i < |Split(k, '.')| ==> |Split(k, '.')[i]| == 1
  }

  /** `OneCharNames` of a group with a first child, in terms of that child and the rest. */
  lemma OneCharCons(x: Node, rest: seq<Node>)
    requires |x.name| == 1 && (x.tree.Group? ==> OneCharNames(x.tree.children))
    requires OneCharNames(rest) && Lookup(rest, x.name).None?
    ensures OneCharNames([x] + rest)
  {
    var cs := [x] + rest;
    assert cs[0] == x && cs[1..] == rest;
    forall i, j | 0 <= i < j < |cs| ensures cs[i].name != cs[j].name {
      assert cs[j] == rest[j - 1];
      if i > 0 {
        assert cs[i] == rest[i - 1];
      }
    }
    forall i | 0 <= i < |cs| ensures |cs[i].name| == 1 && (cs[i].tree.Group? ==> OneCharNames(cs[i].tree.children)) {
      if i > 0 {
        assert cs[i] == rest[i - 1];
      }
    }
  }

  /** The converse: the first child and the rest of a group with `OneCharNames`. */
  lemma OneCharUncons(cs: seq<Node>)
    requires cs != [] && OneCharNames(cs)
    ensures |cs[0].name| == 1 && (cs[0].tree.Group? ==> OneCharNames(cs[0].tree.children))
    ensures OneCharNames(cs[1..]) && Lookup(cs[1..], cs[0].name).None?
  {
    var rest := cs[1..];
    forall i | 0 <= i < |rest| ensures rest[i].name != cs[0].name {
      assert rest[i] == cs[i + 1];
    }
    forall i, j | 0 <= i < j < |rest| ensures rest[i].name != rest[j].name {
      assert rest[i] == cs[i + 1] && rest[j] == cs[j + 1];
    }
    forall i | 0 <= i < |rest| ensures |rest[i].name| == 1 && (rest[i].tree.Group? ==> OneCharNames(rest[i].tree.children)) {
      assert rest[i] == cs[i + 1];
    }
  }

  /** `path[name] = t` keeps one-character, unique names when `name` and `t` have them. */
  lemma {:induction false} AssignOneChar(cs: seq<Node>, name: string, t: KeyTree)
    requires OneCharNames(cs) && |name| == 1 && (t.Group? ==> OneCharNames(t.children))
    ensures OneCharNames(Assign(cs, name, t))
  {
    if cs == [] {
      OneCharCons(Node(name, t), []);
    } else {
      OneCharUncons(cs);
      if cs[0].name == name {
        OneCharCons(Node(name, t), cs[1..]);
      } else {
        AssignOneChar(cs[1..], name, t);
        OneCharCons(cs[0], Assign(cs[1..], name, t));
      }
    }
  }

  /** A fresh chain of one-character parts has one-character names. */
  lemma {:induction false} BranchOneChar(parts: seq<string>)
    requires forall i :: 0 <= i < |parts| ==> |parts[i]| == 1
    ensures Branch(parts).Group? ==> OneCharNames(Branch(parts).children)
    decreases |parts|
  {
    if parts != [] {
      BranchOneChar(parts[1..]);
      OneCharCons(Node(parts[0], Branch(parts[1..])), []);
      assert [Node(parts[0], Branch(parts[1..]))] + [] == [Node(parts[0], Branch(parts[1..]))];
    }
  }

  /** The subtree a present name leads to is a child of the group. */
  lemma LookupOneChar(cs: seq<Node>, name: string, sub: seq<Node>)
    requires OneCharNames(cs) && Lookup(cs, name) == Some(Group(sub))
    ensures OneCharNames(sub)
  {
    var i :| 0 <= i < |cs| && cs[i].name == name && cs[i].tree == Group(sub);
  }

  /** Merging a key of one-character parts keeps one-character, unique names. */
  lemma {:induction false} InsertExtractedOneChar(cs: seq<Node>, parts: seq<string>, key: string)
    requires |parts| >= 1 && OneCharNames(cs) && forall i :: 0 <= i < |parts| ==> |parts[i]| == 1
    requires InsertExtracted(cs, parts, key).Ok?
    ensures OneCharNames(InsertExtracted(cs, parts, key).value)
    decreases |parts|
  {
    match Lookup(cs, parts[0])
    case None =>
      BranchOneChar(parts[1..]);
      AssignOneChar(cs, parts[0], Branch(parts[1..]));
    case Some(Leaf) =>
    case Some(Group(sub)) =>
      if |parts| > 1 {
        LookupOneChar(cs, parts[0], sub);
        InsertExtractedOneChar(sub, parts[1..], key);
        AssignOneChar(cs, parts[0], Group(InsertExtracted(sub, parts[1..], key).value));
      }
  }

  /** Building from existing keys of one-character parts keeps one-character names. */
  lemma {:induction false} BuildFromOneChar(cs: seq<Node>, keys: seq<string>)
    requires OneCharNames(cs) && forall k :: k in keys ==> OneCharKey(k)
    ensures OneCharNames(BuildFrom(cs, keys))
    decreases |keys|
  {
    if keys != [] {
      var parts := Split(keys[0], '.');
      assert OneCharKey(keys[0]);
      BranchOneChar(parts[1..]);
      AssignOneChar(cs, parts[0], Branch(parts[1..]));
      BuildFromOneChar(InsertExisting(cs, parts), keys[1..]);
    }
  }

  /** Merging extracted keys of one-character parts keeps one-character names. */
  lemma {:induction false} MergeFromOneChar(cs: seq<Node>, keys: seq<string>)
    requires OneCharNames(cs) && forall k :: k in keys ==> OneCharKey(k)
    requires MergeFrom(cs, keys).Ok?
    ensures OneCharNames(MergeFrom(cs, keys).value)
    decreases |keys|
  {
    if keys != [] {
      assert OneCharKey(keys[0]);
      InsertExtractedOneChar(cs, Split(keys[0], '.'), keys[0]);
      MergeFromOneChar(InsertExtracted(cs, Split(keys[0], '.'), keys[0]).value, keys[1..]);
    }
  }

  /** When every part of every existing and extracted key is one character long, as in
      the source's own tests, the code as written computes the intended result. */
  lemma ProcessAsWrittenAgrees(p: Processor, collator: Collator, draft: TranslationCollection, extracted: TranslationCollection, existing: TranslationCollection)
    requires forall k :: k in existing.keys ==> OneCharKey(k)
    requires forall k :: k in extracted.keys ==> OneCharKey(k)
    ensures ProcessAsWrittenSpec(p, collator, draft, extracted, existing) == ProcessSpec(p, collator, draft, extracted, existing)
  {
    var sorted := Sort(extracted, CompareFn(p.sortSensitivity, collator));
    assert forall k :: k in sorted.keys ==> k in multiset(extracted.keys);
    assert OneCharNames([]);
    BuildFromOneChar([], existing.keys);
    var m := MergeFrom(BuildFrom([], existing.keys), sorted.keys);
    if m.Ok? {
      MergeFromOneChar(BuildFrom([], existing.keys), sorted.keys);
      FlattenAsWrittenAgrees(m.value, 0, []);
      assert m.value[0..] == m.value;
    }
  }

  /** The discrepancy: an existing key "ab" (any key with a part longer than one
      character) makes the code as written throw, where the corrected flattening keeps
      the key. */
  lemma FirstCharacterCounterexample(p: Processor, collator: Collator, draft: TranslationCollection, extracted: TranslationCollection, existing: TranslationCollection)
    requires existing.keys == ["ab"] && extracted.keys == []
    ensures ProcessAsWrittenSpec(p, collator, draft, extracted, existing) == Err(UndefinedToObject)
    ensures ProcessSpec(p, collator, draft, extracted, existing).Ok?
    ensures ProcessSpec(p, collator, draft, extracted, existing).value.keys == ["ab"]
  {
    assert '.' !in "ab";
    SplitWithoutSeparator("ab", '.');
    var t := BuildFrom([], existing.keys);
    assert existing.keys[0] == "ab" && existing.keys[1..] == [];
    assert InsertExisting([], ["ab"]) == [Node("ab", Leaf)];
    assert t == BuildFrom([Node("ab", Leaf)], []);
    assert Sort(extracted, CompareFn(p.sortSensitivity, collator)).keys == [];
    assert Lookup(t, "a") == None;
    ProcessFlatKeys(p, collator, draft, extracted, existing);
  }

  lemma SortOne(c: TranslationCollection, compareFn: Option<Comparator>)
    requires |c.keys| <= 1
    ensures Sort(c, compareFn).keys == c.keys
  {
    var r := Sort(c, compareFn).keys;
    assert |r| == |multiset(r)| == |multiset(c.keys)| == |c.keys|;
    if |c.keys| == 1 {
      assert r[0] in multiset(c.keys);
    }
  }

  /** The keys of the result once the merged matrix and its flattening are known. */
  lemma ProcessKeysVia(p: Processor, collator: Collator, draft: TranslationCollection, extracted: TranslationCollection, existing: TranslationCollection, t: seq<Node>, ks: seq<string>)
    requires MergeFrom(BuildFrom([], existing.keys), Sort(extracted, CompareFn(p.sortSensitivity, collator)).keys) == Ok(t)
    requires Flatten(t, []) == ks && Distinct(ks)
    ensures ProcessSpec(p, collator, draft, extracted, existing).Ok?
    ensures ProcessSpec(p, collator, draft, extracted, existing).value.keys == ks
  {
    FirstOccurrencesOfDistinct(ks, {});
  }

  /** A later existing key replaces the group an earlier one sharing its first part
      created: of "a.x" and "a.y" only "a.y" survives. */
  lemma LaterExistingKeyReplacesGroup(p: Processor, collator: Collator, draft: TranslationCollection, extracted: TranslationCollection, existing: TranslationCollection)
    requires existing.keys == ["a.x", "a.y"] && extracted.keys == []
    ensures ProcessSpec(p, collator, draft, extracted, existing).Ok?
    ensures ProcessSpec(p, collator, draft, extracted, existing).value.keys == ["a.y"]
  {
    var t := [Node("a", Group([Node("y", Leaf)]))];
    var sorted := Sort(extracted, CompareFn(p.sortSensitivity, collator)).keys;
    assert sorted == [] by {
      SortOne(extracted, CompareFn(p.sortSensitivity, collator));
    }
    assert MergeFrom(BuildFrom([], existing.keys), sorted) == Ok(t) by {
      ReplaceGroupBuild();
    }
    assert Flatten(t, []) == ["a.y"] by {
      SingleLeafFlatten("a", "y");
      assert "a" + "." + "y" == "a.y";
    }
    ProcessKeysVia(p, collator, draft, extracted, existing, t, ["a.y"]);
  }

  /** One existing key `x.y` placed in an empty matrix. */
  lemma InsertTwoParts(cs: seq<Node>, x: string, y: string)
    requires '.' !in x && '.' !in y
    ensures InsertExisting(cs, Split(x + "." + y, '.')) == Assign(cs, x, Group([Node(y, Leaf)]))
  {
    TwoParts(x, y);
    assert [x, y][1..] == [y] && [y][1..] == [];
    assert Branch([y]) == Group([Node(y, Leaf)]);
  }

  lemma ReplaceGroupBuild()
    ensures BuildFrom([], ["a.x", "a.y"]) == [Node("a", Group([Node("y", Leaf)]))]
  {
    var t1 := [Node("a", Group([Node("x", Leaf)]))];
    var t := [Node("a", Group([Node("y", Leaf)]))];
    assert BuildFrom([], ["a.x", "a.y"]) == BuildFrom(t1, ["a.y"]) by {
      assert "a.x" == "a" + "." + "x";
      InsertTwoParts([], "a", "x");
      assert ["a.x", "a.y"][1..] == ["a.y"];
    }
    assert BuildFrom(t1, ["a.y"]) == BuildFrom(t, []) by {
      assert "a.y" == "a" + "." + "y";
      InsertTwoParts(t1, "a", "y");
      assert Assign(t1, "a", Group([Node("y", Leaf)])) == t;
      assert ["a.y"][1..] == [];
    }
  }

  /** A group holding one leaf flattens to its two names joined. */
  lemma SingleLeafFlatten(x: string, y: string)
    ensures Flatten([Node(x, Group([Node(y, Leaf)]))], []) == [x + "." + y]
  {
    assert Flatten([Node(y, Leaf)], [x]) == [Join([x, y], '.')] by {
      assert [x] + [y] == [x, y];
      assert [Node(y, Leaf)][1..] == [];
    }
    assert Join([x, y], '.') == x + "." + y by {
      assert [x, y][1..] == [y];
    }
    assert [] + [x] == [x];
    assert [Node(x, Group([Node(y, Leaf)]))][1..] == [];
  }

  /** A dot ends the first part of a split. */
  lemma {:induction false} SplitAfter(a: string, b: string)
    requires '.' !in a
    ensures Split(a + ['.'] + b, '.') == [a] + Split(b, '.')
  {
    var s := a + ['.'] + b;
    if a == [] {
      assert s == ['.'] + b && s[1..] == b;
    } else {
      SplitAfter(a[1..], b);
      assert s[0] == a[0] && s[1..] == a[1..] + ['.'] + b;
      assert [a[0]] + a[1..] == a;
    }
  }

  lemma TwoParts(x: string, y: string)
    requires '.' !in x && '.' !in y
    ensures Split(x + "." + y, '.') == [x, y]
  {
    SplitAfter(x, y);
    SplitWithoutSeparator(y, '.');
  }

  /** An extracted key below an existing leaf is refused: with "a" existing, "a.b" fails
      with `Unexpected key: a.b`. */
  lemma KeyBelowLeafRefused(p: Processor, collator: Collator, draft: TranslationCollection, extracted: TranslationCollection, existing: TranslationCollection)
    requires existing.keys == ["a"] && extracted.keys == ["a.b"]
    ensures ProcessSpec(p, collator, draft, extracted, existing) == Err("Unexpected key: a.b")
  {
    var t := [Node("a", Leaf)];
    var sorted := Sort(extracted, CompareFn(p.sortSensitivity, collator)).keys;
    assert sorted == ["a.b"] by {
      SortOne(extracted, CompareFn(p.sortSensitivity, collator));
    }
    assert BuildFrom([], existing.keys) == t by {
      SplitWithoutSeparator("a", '.');
      assert existing.keys[1..] == [];
    }
    assert MergeFrom(t, ["a.b"]) == Err("Unexpected key: a.b") by {
      assert "a.b" == "a" + "." + "b";
      TwoParts("a", "b");
      assert InsertExtracted(t, ["a", "b"], "a.b") == Err("Unexpected key: a.b");
    }
  }

  /** A new extracted key joins the group of its first part, after the keys already
      there: with "a.x" and "b" existing, "a.y" lands between them. */
  lemma ExtractedKeyJoinsGroup(p: Processor, collator: Collator, draft: TranslationCollection, extracted: TranslationCollection, existing: TranslationCollection)
    requires existing.keys == ["a.x", "b"] && extracted.keys == ["a.y"]
    ensures ProcessSpec(p, collator, draft, extracted, existing).Ok?
    ensures ProcessSpec(p, collator, draft, extracted, existing).value.keys == ["a.x", "a.y", "b"]
  {
    var t := [Node("a", Group([Node("x", Leaf), Node("y", Leaf)])), Node("b", Leaf)];
    var sorted := Sort(extracted, CompareFn(p.sortSensitivity, collator)).keys;
    SortOne(extracted, CompareFn(p.sortSensitivity, collator));
    JoinsGroupMatrix(existing.keys, sorted);
    JoinsGroupFlatten();
    ProcessKeysVia(p, collator, draft, extracted, existing, t, ["a.x", "a.y", "b"]);
  }

  lemma JoinsGroupMatrix(existingKeys: seq<string>, sortedKeys: seq<string>)
    requires existingKeys == ["a.x", "b"] && sortedKeys == ["a.y"]
    ensures MergeFrom(BuildFrom([], existingKeys), sortedKeys)
      == Ok([Node("a", Group([Node("x", Leaf), Node("y", Leaf)])), Node("b", Leaf)])
  {
    JoinsGroupBuild();
    JoinsGroupMerge();
  }

  lemma JoinsGroupBuild()
    ensures BuildFrom([], ["a.x", "b"]) == [Node("a", Group([Node("x", Leaf)])), Node("b", Leaf)]
  {
    var t1 := [Node("a", Group([Node("x", Leaf)]))];
    var t2 := t1 + [Node("b", Leaf)];
    assert Split("a.x", '.') == ["a", "x"] by {
      assert "a.x" == "a" + "." + "x";
      TwoParts("a", "x");
    }
    assert Split("b", '.') == ["b"] by {
      SplitWithoutSeparator("b", '.');
    }
    assert InsertExisting([], ["a", "x"]) == t1 by {
      assert ["a", "x"][1..] == ["x"] && ["x"][1..] == [];
    }
    assert InsertExisting(t1, ["b"]) == t2 by {
      assert Lookup(t1, "b") == None;
    }
    assert ["a.x", "b"][1..] == ["b"] && ["b"][1..] == [];
    assert BuildFrom(t1, ["b"]) == BuildFrom(t2, []);
  }

  lemma JoinsGroupMerge()
    ensures MergeFrom([Node("a", Group([Node("x", Leaf)])), Node("b", Leaf)], ["a.y"])
      == Ok([Node("a", Group([Node("x", Leaf), Node("y", Leaf)])), Node("b", Leaf)])
  {
    var x, y := Node("x", Leaf), Node("y", Leaf);
    var t2 := [Node("a", Group([x])), Node("b", Leaf)];
    var t := [Node("a", Group([x, y])), Node("b", Leaf)];
    assert Split("a.y", '.') == ["a", "y"] by {
      assert "a.y" == "a" + "." + "y";
      TwoParts("a", "y");
    }
    assert InsertExtracted(t2, ["a", "y"], "a.y") == Ok(t) by {
      JoinsGroupInner();
      JoinsGroupOuter();
    }
    assert ["a.y"][1..] == [];
    assert MergeFrom(t2, ["a.y"]) == MergeFrom(t, []);
  }

  lemma JoinsGroupInner()
    ensures InsertExtracted([Node("x", Leaf)], ["y"], "a.y") == Ok([Node("x", Leaf), Node("y", Leaf)])
  {
    var x := Node("x", Leaf);
    assert Lookup([x], "y") == None;
    assert ["y"][1..] == [] && Branch([]) == Leaf;
    assert Assign([x], "y", Leaf) == [x, Node("y", Leaf)];
  }

  lemma JoinsGroupOuter()
    ensures var t2 := [Node("a", Group([Node("x", Leaf)])), Node("b", Leaf)];
      InsertExtracted(t2, ["a", "y"], "a.y") ==
        match InsertExtracted([Node("x", Leaf)], ["y"], "a.y")
        case Ok(sub') => Ok(Assign(t2, "a", Group(sub')))
        case Err(m) => Err(m)
    ensures Assign([Node("a", Group([Node("x", Leaf)])), Node("b", Leaf)], "a", Group([Node("x", Leaf), Node("y", Leaf)]))
      == [Node("a", Group([Node("x", Leaf), Node("y", Leaf)])), Node("b", Leaf)]
  {
    var t2 := [Node("a", Group([Node("x", Leaf)])), Node("b", Leaf)];
    assert ["a", "y"][1..] == ["y"];
    assert Lookup(t2, "a") == Some(Group([Node("x", Leaf)]));
  }

  lemma JoinsGroupFlatten()
    ensures Flatten([Node("a", Group([Node("x", Leaf), Node("y", Leaf)])), Node("b", Leaf)], [])
      == ["a.x", "a.y", "b"]
    ensures Distinct(["a.x", "a.y", "b"])
  {
    var x, y := Node("x", Leaf), Node("y", Leaf);
    var t := [Node("a", Group([x, y])), Node("b", Leaf)];
    assert Flatten([x, y], ["a"]) == ["a.x", "a.y"] by {
      LeafFlatten(["a"], "x", [y]);
      LeafFlatten(["a"], "y", []);
      assert [x, y][1..] == [y];
      assert Join(["a", "x"], '.') == "a.x" by { assert ["a", "x"][1..] == ["x"]; }
      assert Join(["a", "y"], '.') == "a.y" by { assert ["a", "y"][1..] == ["y"]; }
    }
    assert Flatten(t[1..], []) == ["b"] by {
      LeafFlatten([], "b", []);
      assert t[1..] == [Node("b", Leaf)] + [];
      assert [] + ["b"] == ["b"];
    }
    assert Flatten(t, []) == Flatten([x, y], ["a"]) + Flatten(t[1..], []) by {
      assert [] + ["a"] == ["a"];
    }
    assert "a.x"[2] == 'x' && "a.y"[2] == 'y';
  }

  /** A leaf at the head of a group flattens to its joined path, before the rest. */
  lemma LeafFlatten(path: seq<string>, name: string, rest: seq<Node>)
    ensures Flatten([Node(name, Leaf)] + rest, path) == [Join(path + [name], '.')] + Flatten(rest, path)
  {
    assert ([Node(name, Leaf)] + rest)[1..] == rest;
  }

  /** An extracted key that names an existing group is not added: with "c.e.f" existing,
      "c" is dropped. */
  lemma ExtractedGroupNameDropped(p: Processor, collator: Collator, draft: TranslationCollection, extracted: TranslationCollection, existing: TranslationCollection)
    requires existing.keys == ["c.e.f"] && extracted.keys == ["c"]
    ensures ProcessSpec(p, collator, draft, extracted, existing).Ok?
    ensures ProcessSpec(p, collator, draft, extracted, existing).value.keys == ["c.e.f"]
  {
    var t := [Node("c", Group([Node("e", Group([Node("f", Leaf)]))]))];
    GroupNameMatrix();
    SortOne(extracted, CompareFn(p.sortSensitivity, collator));
    GroupNameFlatten();
    ProcessKeysVia(p, collator, draft, extracted, existing, t, ["c.e.f"]);
  }

  lemma GroupNameMatrix()
    ensures MergeFrom(BuildFrom([], ["c.e.f"]), ["c"]) == Ok([Node("c", Group([Node("e", Group([Node("f", Leaf)]))]))])
  {
    var t := [Node("c", Group([Node("e", Group([Node("f", Leaf)]))]))];
    TwoParts("e", "f");
    assert "c.e.f" == "c" + ['.'] + "e.f";
    SplitAfter("c", "e.f");
    assert ["c", "e", "f"][1..] == ["e", "f"] && ["e", "f"][1..] == ["f"];
    assert InsertExisting([], ["c", "e", "f"]) == t;
    assert BuildFrom([], ["c.e.f"]) == BuildFrom(t, []);
    SplitWithoutSeparator("c", '.');
    assert InsertExtracted(t, ["c"], "c") == Ok(t);
    assert MergeFrom(t, ["c"]) == MergeFrom(t, []);
  }

  lemma GroupNameFlatten()
    ensures Flatten([Node("c", Group([Node("e", Group([Node("f", Leaf)]))]))], []) == ["c.e.f"]
  {
    assert Join(["c", "e", "f"], '.') == "c.e.f";
    assert [] + ["c"] + ["e"] + ["f"] == ["c", "e", "f"];
  }
}
