/** `SortByOriginalOrderPostProcessor` on dotted keys: when `mergeKey` refuses a key, and
    which keys the result holds, and in which order, when the existing keys nest. */
module OriginalOrderNested {
  import opened Wrappers
  import opened JsString
  import opened JsArraySort
  import opened Collections
  import opened SortSensitivity
  import opened SortByOriginalOrder

  // ---------------------------------------------------------------------------------
  // Walking the matrix

  /** The subtree reached from the group `cs` by following the names `q` the way
      `path = path[keyPart]` does; `None` when a name is missing or a leaf is met before
      the last name. */
  function Walk(cs: seq<Node>, q: seq<string>): Option<KeyTree>
    requires |q| >= 1
    decreases |q|
  {
    match Lookup(cs, q[0])
    case None => None
    case Some(t) =>
      if |q| == 1 then Some(t)
      else match t
        case Leaf => None
        case Group(sub) => Walk(sub, q[1..])
  }

  /** A walk only depends on the child its first name finds. */
  lemma WalkVia(cs: seq<Node>, cs': seq<Node>, q: seq<string>)
    requires |q| >= 1 && Lookup(cs, q[0]) == Lookup(cs', q[0])
    ensures Walk(cs, q) == Walk(cs', q)
  {
  }

  /** The child at `i` is the one found when no earlier child has its name. */
  lemma {:induction false} LookupFirst(cs: seq<Node>, i: nat, name: string)
    requires i < |cs| && cs[i].name == name
    requires forall m :: 0 <= m < i ==> cs[m].name != name
    ensures Lookup(cs, name) == Some(cs[i].tree)
  {
    if i > 0 {
      assert cs[1..][i - 1] == cs[i];
      LookupFirst(cs[1..], i - 1, name);
    }
  }

  /** Some proper prefix of `parts` leads to a leaf of `cs`. */
  ghost predicate Blocked(cs: seq<Node>, parts: seq<string>) {
    exists n :: 1 <= n < |parts| && Walk(cs, parts[..n]) == Some(Leaf)
  }

  /** The walk along a prefix of at least two names goes through the first child. */
  lemma WalkPrefix(cs: seq<Node>, parts: seq<string>, sub: seq<Node>, n: nat)
    requires 1 < n <= |parts| && Lookup(cs, parts[0]) == Some(Group(sub))
    ensures Walk(cs, parts[..n]) == Walk(sub, parts[1..][..n - 1])
  {
    assert parts[..n][0] == parts[0];
    assert parts[..n][1..] == parts[1..][..n - 1];
  }

  /** `mergeKey` refuses a key exactly when a proper prefix of its parts leads to a leaf
      of the matrix it is merged into. */
  lemma {:induction false} InsertExtractedFails(cs: seq<Node>, parts: seq<string>, key: string)
    requires |parts| >= 1
    ensures InsertExtracted(cs, parts, key).Err? <==> Blocked(cs, parts)
    decreases |parts|
  {
    match Lookup(cs, parts[0])
    case None =>
      forall n | 1 <= n < |parts| ensures Walk(cs, parts[..n]) != Some(Leaf) {
        assert parts[..n][0] == parts[0];
      }
    case Some(Leaf) =>
      if |parts| > 1 {
        assert parts[..1][0] == parts[0];
        assert Walk(cs, parts[..1]) == Some(Leaf);
      }
    case Some(Group(sub)) =>
      assert parts[..1][0] == parts[0];
      if |parts| > 1 {
        InsertExtractedFails(sub, parts[1..], key);
        if Blocked(sub, parts[1..]) {
          var m :| 1 <= m < |parts[1..]| && Walk(sub, parts[1..][..m]) == Some(Leaf);
          WalkPrefix(cs, parts, sub, m + 1);
        }
        if Blocked(cs, parts) {
          var n :| 1 <= n < |parts| && Walk(cs, parts[..n]) == Some(Leaf);
          WalkPrefix(cs, parts, sub, n);
        }
      }
  }

  /** The merge of `keys` into `cs` meets a key blocked in the matrix the keys before it
      have produced. */
  ghost predicate MergeBlocked(cs: seq<Node>, keys: seq<string>) {
    exists i :: 0 <= i < |keys| && MergeFrom(cs, keys[..i]).Ok?
      && Blocked(MergeFrom(cs, keys[..i]).value, Split(keys[i], '.'))
  }

  lemma MergePrefixStep(cs: seq<Node>, keys: seq<string>, t: seq<Node>, i: nat)
    requires 1 <= i <= |keys|
    requires InsertExtracted(cs, Split(keys[0], '.'), keys[0]) == Ok(t)
    ensures MergeFrom(cs, keys[..i]) == MergeFrom(t, keys[1..][..i - 1])
  {
    assert keys[..i][0] == keys[0];
    assert keys[..i][1..] == keys[1..][..i - 1];
  }

  /** The merge fails exactly when it meets a blocked key. */
  lemma {:induction false} MergeFromFails(cs: seq<Node>, keys: seq<string>)
    ensures MergeFrom(cs, keys).Err? <==> MergeBlocked(cs, keys)
    decreases |keys|
  {
    if keys != [] {
      var parts := Split(keys[0], '.');
      InsertExtractedFails(cs, parts, keys[0]);
      assert keys[..0] == [];
      match InsertExtracted(cs, parts, keys[0])
      case Err(_) =>
      case Ok(t) =>
        MergeFromFails(t, keys[1..]);
        if MergeBlocked(cs, keys) {
          var i :| 0 <= i < |keys| && MergeFrom(cs, keys[..i]).Ok?
            && Blocked(MergeFrom(cs, keys[..i]).value, Split(keys[i], '.'));
          assert i > 0;
          MergePrefixStep(cs, keys, t, i);
          assert keys[1..][i - 1] == keys[i];
        }
        if MergeBlocked(t, keys[1..]) {
          var i :| 0 <= i < |keys[1..]| && MergeFrom(t, keys[1..][..i]).Ok?
            && Blocked(MergeFrom(t, keys[1..][..i]).value, Split(keys[1..][i], '.'));
          MergePrefixStep(cs, keys, t, i + 1);
          assert keys[1..][i] == keys[i + 1];
        }
    }
  }

  /** `process` throws exactly when, as the sorted extracted keys are merged one by one
      into the matrix of the existing keys, some key has a proper dot-prefix that leads
      to a leaf. */
  lemma ProcessFails(p: Processor, collator: Collator, draft: TranslationCollection, extracted: TranslationCollection, existing: TranslationCollection)
    ensures ProcessSpec(p, collator, draft, extracted, existing).Err? <==>
      MergeBlocked(BuildFrom([], existing.keys), Sort(extracted, CompareFn(p.sortSensitivity, collator)).keys)
  {
    MergeFromFails(BuildFrom([], existing.keys), Sort(extracted, CompareFn(p.sortSensitivity, collator)).keys);
  }

  // ---------------------------------------------------------------------------------
  // Keys that nest

  /** The parts `u` are a proper prefix of the parts `v`. */
  predicate PartsPrefix(u: seq<string>, v: seq<string>) {
    |u| < |v| && v[..|u|] == u
  }

  /** No key is a dot-prefix of another: "a" and "a.b" do not both occur. */
  ghost predicate NoDotPrefix(keys: seq<string>) {
    forall a, b :: a in keys && b in keys ==> !PartsPrefix(Split(a, '.'), Split(b, '.'))
  }

  /** No two keys share their first part. */
  ghost predicate DistinctFirstParts(keys: seq<string>) {
    forall i, j :: 0 <= i < j < |keys| ==> Split(keys[i], '.')[0] != Split(keys[j], '.')[0]
  }

  /** The matrix of keys with distinct first parts: one fresh branch per key, in order. */
  function Branches(keys: seq<string>): (cs: seq<Node>)
    ensures |cs| == |keys|
  {
    if keys == [] then []
    else [Node(Split(keys[0], '.')[0], Branch(Split(keys[0], '.')[1..]))] + Branches(keys[1..])
  }

  lemma {:induction false} BranchesAt(keys: seq<string>, i: nat)
    requires i < |keys|
    ensures Branches(keys)[i] == Node(Split(keys[i], '.')[0], Branch(Split(keys[i], '.')[1..]))
  {
    if i > 0 {
      BranchesAt(keys[1..], i - 1);
      assert keys[1..][i - 1] == keys[i];
    }
  }

  /** No child of `cs` is named after the first part of one of the keys. */
  ghost predicate FreshNames(cs: seq<Node>, keys: seq<string>) {
    forall i, m :: 0 <= i < |keys| && 0 <= m < |cs| ==> cs[m].name != Split(keys[i], '.')[0]
  }

  lemma FreshInsert(cs: seq<Node>, keys: seq<string>)
    requires keys != [] && FreshNames(cs, keys)
    ensures InsertExisting(cs, Split(keys[0], '.')) == cs + [Branches(keys)[0]]
  {
    assert Lookup(cs, Split(keys[0], '.')[0]).None?;
  }

  lemma FreshTail(cs: seq<Node>, keys: seq<string>)
    requires keys != [] && FreshNames(cs, keys) && DistinctFirstParts(keys)
    ensures FreshNames(cs + [Branches(keys)[0]], keys[1..]) && DistinctFirstParts(keys[1..])
  {
    forall i, j | 0 <= i < j < |keys[1..]|
      ensures Split(keys[1..][i], '.')[0] != Split(keys[1..][j], '.')[0]
    {
      assert keys[1..][i] == keys[i + 1] && keys[1..][j] == keys[j + 1];
    }
    var cs' := cs + [Branches(keys)[0]];
    forall i, m | 0 <= i < |keys[1..]| && 0 <= m < |cs'|
      ensures cs'[m].name != Split(keys[1..][i], '.')[0]
    {
      assert keys[1..][i] == keys[i + 1];
    }
  }

  lemma BuildFromCons(cs: seq<Node>, keys: seq<string>, next: seq<Node>)
    requires keys != [] && InsertExisting(cs, Split(keys[0], '.')) == next
    ensures BuildFrom(cs, keys) == BuildFrom(next, keys[1..])
  {
  }

  lemma AppendCons(cs: seq<Node>, x: Node, rest: seq<Node>)
    ensures cs + [x] + rest == cs + ([x] + rest)
  {
  }

  /** Existing keys with distinct first parts each get their own branch, appended in
      order, as none of them replaces another's group. */
  lemma {:induction false} BuildDistinct(cs: seq<Node>, keys: seq<string>)
    requires DistinctFirstParts(keys) && FreshNames(cs, keys)
    ensures BuildFrom(cs, keys) == cs + Branches(keys)
    decreases |keys|
  {
    if keys == [] {
      assert cs + Branches(keys) == cs;
    } else {
      var cs' := cs + [Branches(keys)[0]];
      FreshInsert(cs, keys);
      FreshTail(cs, keys);
      BuildDistinct(cs', keys[1..]);
      BuildFromCons(cs, keys, cs');
      AppendCons(cs, Branches(keys)[0], Branches(keys[1..]));
    }
  }

  /** A fresh branch leads to a leaf along the parts it was built from. */
  lemma {:induction false} BranchLeaf(parts: seq<string>)
    requires |parts| >= 1
    ensures Walk([Node(parts[0], Branch(parts[1..]))], parts) == Some(Leaf)
  {
    if |parts| > 1 {
      BranchLeaf(parts[1..]);
      assert parts[1..][1..] == parts[2..];
    }
  }

  /** The branches are named after the keys' first parts, in order. */
  lemma BranchesNamed(keys: seq<string>)
    ensures forall m :: 0 <= m < |keys| ==> Branches(keys)[m].name == Split(keys[m], '.')[0]
  {
    forall m | 0 <= m < |keys| ensures Branches(keys)[m].name == Split(keys[m], '.')[0] {
      BranchesAt(keys, m);
    }
  }

  /** Every existing key with a first part of its own leads to a leaf of its branch. */
  lemma BranchesLeaf(keys: seq<string>, i: nat)
    requires DistinctFirstParts(keys) && i < |keys|
    ensures Walk(Branches(keys), Split(keys[i], '.')) == Some(Leaf)
  {
    var parts := Split(keys[i], '.');
    var cs := Branches(keys);
    BranchesAt(keys, i);
    BranchesNamed(keys);
    LookupFirst(cs, i, parts[0]);
    WalkVia(cs, [Node(parts[0], Branch(parts[1..]))], parts);
    BranchLeaf(parts);
  }

  // ---------------------------------------------------------------------------------
  // What a merge keeps and adds

  /** Merging a key keeps every leaf that was there. */
  lemma {:induction false} InsertKeepsLeaves(cs: seq<Node>, parts: seq<string>, key: string, q: seq<string>)
    requires |parts| >= 1 && InsertExtracted(cs, parts, key).Ok?
    requires |q| >= 1 && Walk(cs, q) == Some(Leaf)
    ensures Walk(InsertExtracted(cs, parts, key).value, q) == Some(Leaf)
    decreases |parts|
  {
    var r := InsertExtracted(cs, parts, key).value;
    match Lookup(cs, parts[0])
    case None =>
      WalkVia(cs, r, q);
    case Some(Leaf) =>
    case Some(Group(sub)) =>
      if |parts| > 1 {
        if q[0] == parts[0] {
          InsertKeepsLeaves(sub, parts[1..], key, q[1..]);
        } else {
          WalkVia(cs, r, q);
        }
      }
  }

  /** Merging a key that does not name a group leaves a leaf at its parts. */
  lemma {:induction false} InsertMakesLeaf(cs: seq<Node>, parts: seq<string>, key: string)
    requires |parts| >= 1 && InsertExtracted(cs, parts, key).Ok?
    requires !(Walk(cs, parts).Some? && Walk(cs, parts).value.Group?)
    ensures Walk(InsertExtracted(cs, parts, key).value, parts) == Some(Leaf)
    decreases |parts|
  {
    var r := InsertExtracted(cs, parts, key).value;
    match Lookup(cs, parts[0])
    case None =>
      BranchLeaf(parts);
      WalkVia(r, [Node(parts[0], Branch(parts[1..]))], parts);
    case Some(Leaf) =>
    case Some(Group(sub)) =>
      InsertMakesLeaf(sub, parts[1..], key);
  }

  /** Merging keeps the names of the children already there, in place. */
  lemma InsertKeepsNames(cs: seq<Node>, parts: seq<string>, key: string)
    requires |parts| >= 1 && InsertExtracted(cs, parts, key).Ok?
    ensures |InsertExtracted(cs, parts, key).value| >= |cs|
    ensures forall m :: 0 <= m < |cs| ==> InsertExtracted(cs, parts, key).value[m].name == cs[m].name
  {
  }

  lemma {:induction false} MergeKeepsNames(cs: seq<Node>, keys: seq<string>)
    requires MergeFrom(cs, keys).Ok?
    ensures |MergeFrom(cs, keys).value| >= |cs|
    ensures forall m :: 0 <= m < |cs| ==> MergeFrom(cs, keys).value[m].name == cs[m].name
    decreases |keys|
  {
    if keys != [] {
      var t := InsertExtracted(cs, Split(keys[0], '.'), keys[0]).value;
      InsertKeepsNames(cs, Split(keys[0], '.'), keys[0]);
      MergeKeepsNames(t, keys[1..]);
    }
  }

  /** Merging one more key continues from the matrix of the keys before it. */
  lemma {:induction false} MergeFromSnoc(cs: seq<Node>, a: seq<string>, x: string)
    ensures MergeFrom(cs, a + [x]) ==
      match MergeFrom(cs, a)
      case Err(m) => Err(m)
      case Ok(t) => InsertExtracted(t, Split(x, '.'), x)
    decreases |a|
  {
    if a == [] {
      assert a + [x] == [x] && [x][1..] == [];
    } else {
      assert (a + [x])[0] == a[0] && (a + [x])[1..] == a[1..] + [x];
      match InsertExtracted(cs, Split(a[0], '.'), a[0])
      case Err(_) =>
      case Ok(t) => MergeFromSnoc(t, a[1..], x);
    }
  }

  // ---------------------------------------------------------------------------------
  // Groups are never empty

  ghost predicate InhabitedTree(t: KeyTree) {
    t.Group? ==> t.children != [] && Inhabited(t.children)
  }

  /** Every group in the matrix has a child. */
  ghost predicate Inhabited(cs: seq<Node>) {
    forall n :: n in cs ==> InhabitedTree(n.tree)
  }

  lemma {:induction false} BranchInhabited(parts: seq<string>)
    ensures InhabitedTree(Branch(parts))
  {
    if parts != [] {
      BranchInhabited(parts[1..]);
    }
  }

  lemma {:induction false} AssignInhabited(cs: seq<Node>, name: string, t: KeyTree)
    requires Inhabited(cs) && InhabitedTree(t)
    ensures Inhabited(Assign(cs, name, t))
  {
    if cs != [] && cs[0].name != name {
      AssignInhabited(cs[1..], name, t);
    }
  }

  lemma InhabitedLookup(cs: seq<Node>, name: string)
    requires Inhabited(cs) && Lookup(cs, name).Some?
    ensures InhabitedTree(Lookup(cs, name).value)
  {
    var i :| 0 <= i < |cs| && cs[i].name == name && cs[i].tree == Lookup(cs, name).value;
    assert cs[i] in cs;
  }

  /** Merging keeps every group inhabited, and the result is never empty. */
  lemma {:induction false} InsertInhabited(cs: seq<Node>, parts: seq<string>, key: string)
    requires |parts| >= 1 && InsertExtracted(cs, parts, key).Ok? && Inhabited(cs)
    ensures Inhabited(InsertExtracted(cs, parts, key).value)
    ensures InsertExtracted(cs, parts, key).value != []
    decreases |parts|
  {
    match Lookup(cs, parts[0])
    case None =>
      BranchInhabited(parts[1..]);
      AssignInhabited(cs, parts[0], Branch(parts[1..]));
    case Some(Leaf) =>
    case Some(Group(sub)) =>
      if |parts| > 1 {
        InhabitedLookup(cs, parts[0]);
        InsertInhabited(sub, parts[1..], key);
        AssignInhabited(cs, parts[0], Group(InsertExtracted(sub, parts[1..], key).value));
      }
  }

  /** An inhabited group holds a leaf. */
  lemma {:induction false} AnyLeaf(cs: seq<Node>) returns (q: seq<string>)
    requires cs != [] && Inhabited(cs)
    ensures |q| >= 1 && Walk(cs, q) == Some(Leaf)
    decreases cs
  {
    LookupFirst(cs, 0, cs[0].name);
    assert cs[0] in cs;
    match cs[0].tree
    case Leaf =>
      q := [cs[0].name];
    case Group(sub) =>
      var q2 := AnyLeaf(sub);
      q := [cs[0].name] + q2;
      assert q[1..] == q2;
  }

  /** A walk to a group, continued by a walk to a leaf inside it. */
  lemma {:induction false} WalkExtend(cs: seq<Node>, q: seq<string>, sub: seq<Node>, q2: seq<string>)
    requires |q| >= 1 && Walk(cs, q) == Some(Group(sub))
    requires |q2| >= 1 && Walk(sub, q2) == Some(Leaf)
    ensures Walk(cs, q + q2) == Some(Leaf)
    decreases |q|
  {
    assert (q + q2)[0] == q[0];
    if |q| == 1 {
      assert (q + q2)[1..] == q2;
    } else {
      var t := Lookup(cs, q[0]).value;
      WalkExtend(t.children, q[1..], sub, q2);
      assert (q + q2)[1..] == q[1..] + q2;
    }
  }

  // ---------------------------------------------------------------------------------
  // Leaves spell keys

  /** A walk to a leaf is a path of the matrix. */
  lemma {:induction false} WalkLeafPath(cs: seq<Node>, q: seq<string>)
    requires |q| >= 1 && Walk(cs, q) == Some(Leaf)
    ensures IsPath(cs, q)
    decreases |q|
  {
    var t := Lookup(cs, q[0]).value;
    if |q| > 1 {
      WalkLeafPath(t.children, q[1..]);
    } else {
      assert q[1..] == [];
    }
    LookupPath(cs, q[0], t, q[1..]);
    assert [q[0]] + q[1..] == q;
  }

  /** Joining more than `u`'s parts with a dot: `u`'s split is a proper prefix. */
  lemma JoinPrefix(u: seq<string>, w: seq<string>)
    requires u != [] && w != []
    ensures PartsPrefix(Split(Join(u, '.'), '.'), Split(Join(u + w, '.'), '.'))
  {
    JoinAppend(u, w);
    SplitDot(Join(u, '.'), Join(w, '.'));
  }

  lemma {:induction false} JoinAppend(a: seq<string>, b: seq<string>)
    requires a != [] && b != []
    ensures Join(a + b, '.') == Join(a, '.') + ['.'] + Join(b, '.')
  {
    assert (a + b)[0] == a[0];
    if |a| > 1 {
      assert (a + b)[1..] == a[1..] + b;
      JoinAppend(a[1..], b);
    } else {
      assert (a + b)[1..] == b;
    }
  }

  /** A dot splits a string into the parts before it and the parts after it. */
  lemma {:induction false} SplitDot(a: string, b: string)
    ensures Split(a + ['.'] + b, '.') == Split(a, '.') + Split(b, '.')
  {
    if a == [] {
      SplitCons('.', b);
      assert a + ['.'] + b == ['.'] + b;
    } else {
      SplitDot(a[1..], b);
      SplitDotCons(a, b);
    }
  }

  lemma SplitDotCons(a: string, b: string)
    requires a != []
    requires Split(a[1..] + ['.'] + b, '.') == Split(a[1..], '.') + Split(b, '.')
    ensures Split(a + ['.'] + b, '.') == Split(a, '.') + Split(b, '.')
  {
    var t := a[1..] + ['.'] + b;
    assert a + ['.'] + b == [a[0]] + t;
    assert a == [a[0]] + a[1..];
    SplitCons(a[0], t);
    SplitCons(a[0], a[1..]);
    PartsCons(a[0], Split(a[1..], '.'), Split(b, '.'));
  }

  lemma PartsCons(c: char, ra: seq<string>, rb: seq<string>)
    requires ra != []
    ensures [""] + (ra + rb) == ([""] + ra) + rb
    ensures [[c] + (ra + rb)[0]] + (ra + rb)[1..] == ([[c] + ra[0]] + ra[1..]) + rb
  {
    assert (ra + rb)[0] == ra[0] && (ra + rb)[1..] == ra[1..] + rb;
  }

  lemma SplitCons(c: char, t: string)
    ensures Split([c] + t, '.') ==
      if c == '.' then [""] + Split(t, '.')
      else [[c] + Split(t, '.')[0]] + Split(t, '.')[1..]
  {
    assert ([c] + t)[0] == c && ([c] + t)[1..] == t;
  }

  /** What a leaf of the merged matrix spells is an existing key or a merged one. */
  lemma LeafKey(e: seq<string>, s: seq<string>, j: nat, q: seq<string>)
    requires j <= |s| && MergeFrom(BuildFrom([], e), s[..j]).Ok?
    requires |q| >= 1 && Walk(MergeFrom(BuildFrom([], e), s[..j]).value, q) == Some(Leaf)
    ensures Join(q, '.') in e + s
  {
    WalkLeafPath(MergeFrom(BuildFrom([], e), s[..j]).value, q);
    MergeFromPath(BuildFrom([], e), s[..j], q);
    if IsPath(BuildFrom([], e), q) {
      BuildFromPath([], e, q);
    }
  }

  /** With no key a dot-prefix of another, the next key is not blocked. */
  lemma NextNotBlocked(e: seq<string>, s: seq<string>, j: nat)
    requires j < |s| && NoDotPrefix(e + s) && MergeFrom(BuildFrom([], e), s[..j]).Ok?
    ensures !Blocked(MergeFrom(BuildFrom([], e), s[..j]).value, Split(s[j], '.'))
  {
    var c := MergeFrom(BuildFrom([], e), s[..j]).value;
    var parts := Split(s[j], '.');
    if Blocked(c, parts) {
      var n :| 1 <= n < |parts| && Walk(c, parts[..n]) == Some(Leaf);
      LeafKey(e, s, j, parts[..n]);
      JoinPrefix(parts[..n], parts[n..]);
      assert parts[..n] + parts[n..] == parts;
      JoinSplit(s[j], '.');
      assert false;
    }
  }

  /** With no key a dot-prefix of another, the next key does not name a group. */
  lemma NextNotGroup(e: seq<string>, s: seq<string>, j: nat)
    requires j < |s| && NoDotPrefix(e + s) && MergeFrom(BuildFrom([], e), s[..j]).Ok?
    requires Inhabited(MergeFrom(BuildFrom([], e), s[..j]).value)
    ensures var w := Walk(MergeFrom(BuildFrom([], e), s[..j]).value, Split(s[j], '.'));
      !(w.Some? && w.value.Group?)
  {
    var c := MergeFrom(BuildFrom([], e), s[..j]).value;
    var parts := Split(s[j], '.');
    var w := Walk(c, parts);
    if w.Some? && w.value.Group? {
      var sub := w.value.children;
      WalkInhabited(c, parts);
      var q2 := AnyLeaf(sub);
      WalkExtend(c, parts, sub, q2);
      LeafKey(e, s, j, parts + q2);
      JoinPrefix(parts, q2);
      JoinSplit(s[j], '.');
      assert false;
    }
  }

  /** What a walk reaches in an inhabited matrix is inhabited. */
  lemma {:induction false} WalkInhabited(cs: seq<Node>, q: seq<string>)
    requires |q| >= 1 && Inhabited(cs) && Walk(cs, q).Some?
    ensures InhabitedTree(Walk(cs, q).value)
    decreases |q|
  {
    InhabitedLookup(cs, q[0]);
    if |q| > 1 {
      WalkInhabited(Lookup(cs, q[0]).value.children, q[1..]);
    }
  }

  /** Every leaf of `c` is still a leaf of `c2`. */
  ghost predicate KeepsLeaves(c: seq<Node>, c2: seq<Node>) {
    forall q :: |q| >= 1 && Walk(c, q) == Some(Leaf) ==> Walk(c2, q) == Some(Leaf)
  }

  /** Each of the keys leads to a leaf of `c`. */
  ghost predicate LeavesFor(c: seq<Node>, keys: seq<string>) {
    forall i :: 0 <= i < |keys| ==> Walk(c, Split(keys[i], '.')) == Some(Leaf)
  }

  lemma InsertKeepsAll(c: seq<Node>, parts: seq<string>, key: string)
    requires |parts| >= 1 && InsertExtracted(c, parts, key).Ok?
    ensures KeepsLeaves(c, InsertExtracted(c, parts, key).value)
  {
    forall q | |q| >= 1 && Walk(c, q) == Some(Leaf)
      ensures Walk(InsertExtracted(c, parts, key).value, q) == Some(Leaf)
    {
      InsertKeepsLeaves(c, parts, key, q);
    }
  }

  lemma LeavesForSnoc(c: seq<Node>, r: seq<Node>, keys: seq<string>, x: string)
    requires LeavesFor(c, keys) && KeepsLeaves(c, r)
    requires |Split(x, '.')| >= 1 && Walk(r, Split(x, '.')) == Some(Leaf)
    ensures LeavesFor(r, keys + [x])
  {
    forall i | 0 <= i < |keys + [x]| ensures Walk(r, Split((keys + [x])[i], '.')) == Some(Leaf) {
      if i < |keys| {
        assert (keys + [x])[i] == keys[i];
      }
    }
  }

  /** The merge of the first `j` sorted keys into the matrix of the existing keys
      succeeds, keeps every group inhabited and every leaf of the starting matrix, and
      leaves a leaf at each key merged. */
  ghost predicate MergeGood(e: seq<string>, s: seq<string>, j: nat)
    requires j <= |s|
  {
    var m := MergeFrom(BuildFrom([], e), s[..j]);
    m.Ok? && Inhabited(m.value) && KeepsLeaves(BuildFrom([], e), m.value) && LeavesFor(m.value, s[..j])
  }

  /** One more key merged keeps the merge good. */
  lemma MergeOne(e: seq<string>, s: seq<string>, j: nat)
    requires j < |s| && NoDotPrefix(e + s) && MergeGood(e, s, j)
    ensures MergeGood(e, s, j + 1)
  {
    var t0 := BuildFrom([], e);
    var c := MergeFrom(t0, s[..j]).value;
    var parts := Split(s[j], '.');
    NextNotBlocked(e, s, j);
    NextNotGroup(e, s, j);
    InsertExtractedFails(c, parts, s[j]);
    assert s[..j + 1] == s[..j] + [s[j]];
    MergeFromSnoc(t0, s[..j], s[j]);
    var r := InsertExtracted(c, parts, s[j]).value;
    InsertInhabited(c, parts, s[j]);
    InsertMakesLeaf(c, parts, s[j]);
    InsertKeepsAll(c, parts, s[j]);
    LeavesForSnoc(c, r, s[..j], s[j]);
  }

  lemma {:induction false} MergePrefix(e: seq<string>, s: seq<string>, j: nat)
    requires j <= |s| && NoDotPrefix(e + s) && Inhabited(BuildFrom([], e))
    ensures MergeGood(e, s, j)
    decreases j
  {
    if j == 0 {
      assert s[..0] == [];
    } else {
      MergePrefix(e, s, j - 1);
      MergeOne(e, s, j - 1);
    }
  }

  // ---------------------------------------------------------------------------------
  // Flattening

  lemma {:induction false} FlattenAppend(a: seq<Node>, b: seq<Node>, path: seq<string>)
    ensures Flatten(a + b, path) == Flatten(a, path) + Flatten(b, path)
  {
    if a == [] {
      assert a + b == b;
    } else {
      assert (a + b)[0] == a[0];
      assert (a + b)[1..] == a[1..] + b;
      FlattenAppend(a[1..], b, path);
    }
  }

  /** Every leaf is flattened to its joined path. */
  lemma {:induction false} WalkLeafFlatten(cs: seq<Node>, q: seq<string>, path: seq<string>)
    requires |q| >= 1 && Walk(cs, q) == Some(Leaf)
    ensures Join(path + q, '.') in Flatten(cs, path)
    decreases cs
  {
    if cs[0].name == q[0] {
      match cs[0].tree
      case Leaf =>
        assert q == [q[0]];
      case Group(sub) =>
        WalkLeafFlatten(sub, q[1..], path + [q[0]]);
        assert path + [q[0]] + q[1..] == path + q;
    } else {
      WalkVia(cs, cs[1..], q);
      WalkLeafFlatten(cs[1..], q, path);
    }
  }

  /** `k` is `n`, or `n` followed by a dot and more. */
  predicate StartsWithPart(k: string, n: string) {
    k == n || (|n| < |k| && k[..|n|] == n && k[|n|] == '.')
  }

  /** Two dot-free first parts of the same key are equal. */
  lemma PartsAgree(k: string, a: string, b: string)
    requires '.' !in a && '.' !in b
    requires StartsWithPart(k, a) && StartsWithPart(k, b)
    ensures a == b
  {
    if |a| == |b| {
      assert k[..|a|] == a && k[..|b|] == b;
    }
  }

  lemma JoinStartsWith(p: seq<string>)
    requires |p| >= 1
    ensures StartsWithPart(Join(p, '.'), p[0])
  {
    if |p| > 1 {
      var k := Join(p, '.');
      assert k == p[0] + ['.'] + Join(p[1..], '.');
      assert k[..|p[0]|] == p[0];
    }
  }

  /** A path's first name is the name of some child. */
  lemma {:induction false} PathHead(cs: seq<Node>, p: seq<string>) returns (m: nat)
    requires IsPath(cs, p)
    ensures m < |cs| && cs[m].name == p[0]
    decreases |cs|
  {
    if cs[0].name == p[0] && IsTreePath(cs[0].tree, p[1..]) {
      m := 0;
    } else {
      var m' := PathHead(cs[1..], p);
      m := m' + 1;
    }
  }

  /** Every flattened key starts with the name of one of the top-level children. */
  lemma FlattenStartsWith(cs: seq<Node>, k: string) returns (m: nat)
    requires k in Flatten(cs, [])
    ensures m < |cs| && StartsWithPart(k, cs[m].name)
  {
    var p := FlattenPath(cs, [], k);
    assert [] + p == p;
    m := PathHead(cs, p);
    JoinStartsWith(p);
  }

  /** The first children of `t` are named after the first parts of the keys, in order. */
  ghost predicate NamedAfter(t: seq<Node>, e: seq<string>) {
    |e| <= |t| && forall m :: 0 <= m < |e| ==> t[m].name == Split(e[m], '.')[0]
  }

  /** A leaf under the branch of the existing key `e[i]` is flattened among the children
      before any later branch. */
  lemma LeafInFront(t: seq<Node>, e: seq<string>, k: string, i: nat, j: nat)
    requires i < j <= |e| && NamedAfter(t, e) && DistinctFirstParts(e)
    requires Split(k, '.')[0] == Split(e[i], '.')[0] && Walk(t, Split(k, '.')) == Some(Leaf)
    ensures k in Flatten(t[..j], [])
  {
    var pk := Split(k, '.');
    var a := t[..j];
    forall m | 0 <= m < i ensures a[m].name != pk[0] {
      assert a[m] == t[m];
    }
    LookupFirst(a, i, pk[0]);
    LookupFirst(t, i, pk[0]);
    WalkVia(a, t, pk);
    WalkLeafFlatten(a, pk, []);
    assert [] + pk == pk;
    JoinSplit(k, '.');
  }

  /** The leaf of an existing key is flattened among the children from its own on. */
  lemma LeafBehind(t: seq<Node>, e: seq<string>, j: nat)
    requires j < |e| && NamedAfter(t, e) && DistinctFirstParts(e)
    requires Walk(t, Split(e[j], '.')) == Some(Leaf)
    ensures e[j] in Flatten(t[j..], [])
  {
    var pj := Split(e[j], '.');
    var b := t[j..];
    LookupFirst(b, 0, pj[0]);
    LookupFirst(t, j, pj[0]);
    WalkVia(b, t, pj);
    WalkLeafFlatten(b, pj, []);
    assert [] + pj == pj;
    JoinSplit(e[j], '.');
  }

  /** No key flattened from the children before the branch of the existing key `e[j]`
      shares that key's first part. */
  lemma NotInFront(t: seq<Node>, e: seq<string>, k: string, j: nat)
    requires j < |e| && NamedAfter(t, e) && DistinctFirstParts(e)
    requires Split(k, '.')[0] == Split(e[j], '.')[0]
    ensures k !in Flatten(t[..j], [])
  {
    var a := t[..j];
    var pk := Split(k, '.');
    if k in Flatten(a, []) {
      var m := FlattenStartsWith(a, k);
      assert a[m] == t[m];
      JoinSplit(k, '.');
      JoinStartsWith(pk);
      PartsAgree(k, a[m].name, pk[0]);
      assert false;
    }
  }

  /** A leaf under the branch of the existing key `e[i]` is flattened before a later
      existing key, whose first part is another. */
  lemma ExistingOrder(t: seq<Node>, e: seq<string>, k: string, i: nat, j: nat)
    requires i < j < |e| && NamedAfter(t, e) && DistinctFirstParts(e)
    requires Split(k, '.')[0] == Split(e[i], '.')[0]
    requires Walk(t, Split(k, '.')) == Some(Leaf) && Walk(t, Split(e[j], '.')) == Some(Leaf)
    ensures k in Flatten(t, []) && e[j] in Flatten(t, [])
    ensures IndexOf(Flatten(t, []), k) < IndexOf(Flatten(t, []), e[j])
  {
    var a, b := t[..j], t[j..];
    assert t == a + b;
    FlattenAppend(a, b, []);
    LeafInFront(t, e, k, i, j);
    LeafBehind(t, e, j);
    NotInFront(t, e, e[j], j);
    IndexBefore(Flatten(a, []), Flatten(b, []), k, e[j]);
  }

  /** What only the second half holds comes after what the first half holds. */
  lemma IndexBefore(fa: seq<string>, fb: seq<string>, x: string, y: string)
    requires x in fa && y in fb && y !in fa
    ensures IndexOf(fa + fb, x) < IndexOf(fa + fb, y)
  {
    var f := fa + fb;
    var i := IndexOf(fa, x);
    assert f[i] == x;
    var j := IndexOf(f, y);
  }

  /** Keys in order of first occurrence keep the order of their first occurrences. */
  lemma FirstOccurrencesBefore(ks: seq<string>, x: string, y: string)
    requires x in ks && y in ks && IndexOf(ks, x) < IndexOf(ks, y)
    ensures x in FirstOccurrences(ks, {}) && y in FirstOccurrences(ks, {})
    ensures IndexOf(FirstOccurrences(ks, {}), x) < IndexOf(FirstOccurrences(ks, {}), y)
  {
    var r := FirstOccurrences(ks, {});
    FirstOccurrencesOrder(ks, {});
    var a, b := IndexOf(r, x), IndexOf(r, y);
  }

  /** The processor's promise for nested keys. When no two existing keys share their
      first part and no key (existing or extracted) is a dot-prefix of another, `process`
      succeeds, every existing and every extracted key is in the result, and the existing
      keys keep their relative order. A later existing key sharing the first part of an
      earlier one replaces its group (see `LaterExistingKeyReplacesGroup`), and a key
      below a leaf is refused (see `ProcessFails`), which is why both conditions are
      needed. */
  lemma ProcessNestedKeys(p: Processor, collator: Collator, draft: TranslationCollection, extracted: TranslationCollection, existing: TranslationCollection)
    requires DistinctFirstParts(existing.keys)
    requires NoDotPrefix(existing.keys + extracted.keys)
    ensures ProcessSpec(p, collator, draft, extracted, existing).Ok?
    ensures forall k :: k in existing.keys || k in extracted.keys ==> k in ProcessSpec(p, collator, draft, extracted, existing).value.keys
    ensures forall i, j :: 0 <= i < j < |existing.keys| ==>
      var r := ProcessSpec(p, collator, draft, extracted, existing).value.keys;
      existing.keys[i] in r && existing.keys[j] in r && IndexOf(r, existing.keys[i]) < IndexOf(r, existing.keys[j])
  {
    var e := existing.keys;
    var s := Sort(extracted, CompareFn(p.sortSensitivity, collator)).keys;
    SortedNoDotPrefix(e, extracted.keys, s);
    MatrixKeys(e, s);
    var f := Flatten(MergeFrom(BuildFrom([], e), s).value, []);
    var r := ProcessSpec(p, collator, draft, extracted, existing).value;
    assert r.keys == FirstOccurrences(f, {});
    forall k | k in e || k in extracted.keys ensures k in r.keys {
      assert k in extracted.keys ==> k in multiset(s);
    }
    forall i, j | 0 <= i < j < |e|
      ensures e[i] in r.keys && e[j] in r.keys && IndexOf(r.keys, e[i]) < IndexOf(r.keys, e[j])
    {
      FirstOccurrencesBefore(f, e[i], e[j]);
    }
  }

  /** The flattened matrix of the existing keys with the sorted keys merged in: every
      key is there, and the existing keys come in their original order. */
  lemma MatrixKeys(e: seq<string>, s: seq<string>)
    requires DistinctFirstParts(e) && NoDotPrefix(e + s)
    ensures MergeFrom(BuildFrom([], e), s).Ok?
    ensures forall k :: k in e || k in s ==> k in Flatten(MergeFrom(BuildFrom([], e), s).value, [])
    ensures forall i, j :: 0 <= i < j < |e| ==>
      var f := Flatten(MergeFrom(BuildFrom([], e), s).value, []);
      e[i] in f && e[j] in f && IndexOf(f, e[i]) < IndexOf(f, e[j])
  {
    var t0 := BuildFrom([], e);
    BuiltDistinct(e);
    MergePrefix(e, s, |s|);
    assert s[..|s|] == s;
    var t := MergeFrom(t0, s).value;
    MergeKeepsNames(t0, s);
    assert NamedAfter(t, e);
    forall k | k in e || k in s ensures k in Flatten(t, []) {
      if k in e {
        var i :| 0 <= i < |e| && e[i] == k;
      } else {
        var i :| 0 <= i < |s| && s[i] == k;
      }
      LeafFlattened(t, k);
    }
    forall i, j | 0 <= i < j < |e|
      ensures e[i] in Flatten(t, []) && e[j] in Flatten(t, []) && IndexOf(Flatten(t, []), e[i]) < IndexOf(Flatten(t, []), e[j])
    {
      ExistingOrder(t, e, e[i], i, j);
    }
  }

  /** The matrix of existing keys with distinct first parts: one inhabited branch per
      key, named after its first part, with a leaf at each key. */
  lemma BuiltDistinct(e: seq<string>)
    requires DistinctFirstParts(e)
    ensures Inhabited(BuildFrom([], e)) && NamedAfter(BuildFrom([], e), e)
    ensures LeavesFor(BuildFrom([], e), e)
  {
    var t0 := BuildFrom([], e);
    BuildDistinct([], e);
    assert [] + Branches(e) == Branches(e);
    forall n | n in t0 ensures InhabitedTree(n.tree) {
      var m :| 0 <= m < |t0| && t0[m] == n;
      BranchesAt(e, m);
      BranchInhabited(Split(e[m], '.')[1..]);
    }
    BranchesNamed(e);
    forall i | 0 <= i < |e| ensures Walk(t0, Split(e[i], '.')) == Some(Leaf) {
      BranchesLeaf(e, i);
    }
  }

  /** Sorting keeps the keys, so no dot-prefix appears. */
  lemma SortedNoDotPrefix(e: seq<string>, x: seq<string>, s: seq<string>)
    requires NoDotPrefix(e + x) && multiset(s) == multiset(x)
    ensures NoDotPrefix(e + s)
  {
    forall k | k in e + s ensures k in e + x {
      if k in s {
        assert k in multiset(s);
      }
    }
  }

  /** A key that leads to a leaf is flattened. */
  lemma LeafFlattened(t: seq<Node>, k: string)
    requires Walk(t, Split(k, '.')) == Some(Leaf)
    ensures k in Flatten(t, [])
  {
    var q := Split(k, '.');
    WalkLeafFlatten(t, q, []);
    assert [] + q == q;
    JoinSplit(k, '.');
  }

  // ---------------------------------------------------------------------------------
  // Where a new key lands

  /** `q` leads from `t` to a leaf through the first child of every group on the way. */
  ghost predicate Leads(t: KeyTree, q: seq<string>)
    decreases |q|
  {
    if q == [] then t == Leaf
    else t.Group? && t.children != [] && t.children[0].name == q[0] && Leads(t.children[0].tree, q[1..])
  }

  lemma {:induction false} BranchLeads(parts: seq<string>)
    ensures Leads(Branch(parts), parts)
    decreases |parts|
  {
    if parts != [] {
      BranchLeads(parts[1..]);
    }
  }

  /** An assignment leaves every child of another name where it was. */
  lemma {:induction false} AssignOther(cs: seq<Node>, name: string, t: KeyTree, i: nat)
    requires i < |cs| && cs[i].name != name
    ensures i < |Assign(cs, name, t)| && Assign(cs, name, t)[i] == cs[i]
    decreases |cs|
  {
    if i > 0 && cs[0].name != name {
      assert cs[1..][i - 1] == cs[i];
      AssignOther(cs[1..], name, t, i - 1);
    }
  }

  /** An assignment replaces the first child of its name, in place. */
  lemma {:induction false} AssignFirst(cs: seq<Node>, name: string, t: KeyTree, i: nat)
    requires i < |cs| && cs[i].name == name
    requires forall m :: 0 <= m < i ==> cs[m].name != name
    ensures i < |Assign(cs, name, t)| && Assign(cs, name, t)[i] == Node(name, t)
    decreases |cs|
  {
    if i > 0 {
      assert cs[1..][i - 1] == cs[i];
      AssignFirst(cs[1..], name, t, i - 1);
    }
  }

  /** Merging a key keeps the first child called `q[0]` where it was, still leading
      along the rest of `q`: new children are only ever appended. */
  lemma {:induction false} InsertKeepsLead(cs: seq<Node>, parts: seq<string>, key: string, q: seq<string>, j: nat)
    requires |parts| >= 1 && InsertExtracted(cs, parts, key).Ok?
    requires |q| >= 1 && j < |cs| && cs[j].name == q[0] && Leads(cs[j].tree, q[1..])
    requires forall m :: 0 <= m < j ==> cs[m].name != q[0]
    ensures var r := InsertExtracted(cs, parts, key).value;
      j < |r| && r[j].name == q[0] && Leads(r[j].tree, q[1..])
    decreases |parts|
  {
    var r := InsertExtracted(cs, parts, key).value;
    match Lookup(cs, parts[0])
    case None =>
      assert r == cs + [Node(parts[0], Branch(parts[1..]))];
    case Some(Leaf) =>
    case Some(Group(sub)) =>
      if |parts| > 1 {
        var sub' := InsertExtracted(sub, parts[1..], key).value;
        if parts[0] == q[0] {
          LookupFirst(cs, j, q[0]);
          InsertKeepsLead(sub, parts[1..], key, q[1..], 0);
          assert q[1..][1..] == q[2..];
          AssignFirst(cs, q[0], Group(sub'), j);
        } else {
          AssignOther(cs, parts[0], Group(sub'), j);
        }
      }
  }

  /** Each existing key leads through the first child of every group of its own branch. */
  ghost predicate AllLead(t: seq<Node>, e: seq<string>) {
    NamedAfter(t, e) && forall j :: 0 <= j < |e| ==> Leads(t[j].tree, Split(e[j], '.')[1..])
  }

  lemma BuiltLead(e: seq<string>)
    requires DistinctFirstParts(e)
    ensures AllLead(BuildFrom([], e), e)
  {
    BuiltDistinct(e);
    BuildDistinct([], e);
    assert [] + Branches(e) == Branches(e);
    forall j | 0 <= j < |e| ensures Leads(Branches(e)[j].tree, Split(e[j], '.')[1..]) {
      BranchesAt(e, j);
      BranchLeads(Split(e[j], '.')[1..]);
    }
  }

  lemma {:induction false} MergeKeepsLead(t: seq<Node>, keys: seq<string>, e: seq<string>)
    requires DistinctFirstParts(e) && AllLead(t, e) && MergeFrom(t, keys).Ok?
    ensures AllLead(MergeFrom(t, keys).value, e)
    decreases |keys|
  {
    if keys != [] {
      var parts := Split(keys[0], '.');
      var t' := InsertExtracted(t, parts, keys[0]).value;
      InsertKeepsNames(t, parts, keys[0]);
      forall j | 0 <= j < |e| ensures Leads(t'[j].tree, Split(e[j], '.')[1..]) {
        var q := Split(e[j], '.');
        forall m | 0 <= m < j ensures t[m].name != q[0] {
        }
        InsertKeepsLead(t, parts, keys[0], q, j);
      }
      MergeKeepsLead(t', keys[1..], e);
    }
  }

  /** The leaf `q` leads to is flattened first. */
  lemma {:induction false} FlattenLeads(cs: seq<Node>, q: seq<string>, path: seq<string>)
    requires Leads(Group(cs), q)
    ensures Flatten(cs, path) != [] && Flatten(cs, path)[0] == Join(path + q, '.')
    decreases |q|
  {
    match cs[0].tree
    case Leaf =>
      assert q == [q[0]];
    case Group(sub) =>
      FlattenLeads(sub, q[1..], path + [q[0]]);
      assert path + [q[0]] + q[1..] == path + q;
  }

  /** A key other than the existing key `e[j]` but sharing its first part is flattened
      after it. */
  lemma SameBranchAfter(t: seq<Node>, e: seq<string>, j: nat, k: string)
    requires j < |e| && AllLead(t, e) && DistinctFirstParts(e)
    requires k in Flatten(t, []) && k != e[j] && Split(k, '.')[0] == Split(e[j], '.')[0]
    ensures e[j] in Flatten(t, []) && IndexOf(Flatten(t, []), e[j]) < IndexOf(Flatten(t, []), k)
  {
    var a, b := t[..j], t[j..];
    assert t == a + b;
    FlattenAppend(a, b, []);
    var q := Split(e[j], '.');
    assert b[0] == t[j];
    FlattenLeads(b, q, []);
    assert [] + q == q;
    JoinSplit(e[j], '.');
    NotInFront(t, e, e[j], j);
    NotInFront(t, e, k, j);
    IndexAtFront(Flatten(a, []), Flatten(b, []), e[j], k);
  }

  /** What heads the second half, and only it holds, comes before anything else only the
      second half holds. */
  lemma IndexAtFront(fa: seq<string>, fb: seq<string>, x: string, y: string)
    requires fb != [] && fb[0] == x && x !in fa
    requires y in fa + fb && y !in fa && y != x
    ensures x in fa + fb && IndexOf(fa + fb, x) < IndexOf(fa + fb, y)
  {
    var f := fa + fb;
    assert f[|fa|] == x;
    var i, j := IndexOf(f, x), IndexOf(f, y);
  }

  /** A key sharing its first part with no existing key is flattened after all of them. */
  lemma NewBranchAfter(t: seq<Node>, e: seq<string>, i: nat, k: string)
    requires i < |e| && NamedAfter(t, e) && DistinctFirstParts(e)
    requires Walk(t, Split(e[i], '.')) == Some(Leaf) && k in Flatten(t, [])
    requires forall m :: 0 <= m < |e| ==> Split(k, '.')[0] != Split(e[m], '.')[0]
    ensures e[i] in Flatten(t, []) && IndexOf(Flatten(t, []), e[i]) < IndexOf(Flatten(t, []), k)
  {
    var a, b := t[..|e|], t[|e|..];
    assert t == a + b;
    FlattenAppend(a, b, []);
    LeafInFront(t, e, e[i], i, |e|);
    var pk := Split(k, '.');
    if k in Flatten(a, []) {
      var m := FlattenStartsWith(a, k);
      assert a[m] == t[m];
      JoinSplit(k, '.');
      JoinStartsWith(pk);
      PartsAgree(k, a[m].name, pk[0]);
      assert false;
    }
    IndexBefore(Flatten(a, []), Flatten(b, []), e[i], k);
  }

  /** Where the new key `k` stands among the existing keys `e` in `f`: after the existing
      key whose first part it shares and before every later existing key, or after every
      existing key when it shares its first part with none. */
  ghost predicate PlacedAmong(f: seq<string>, e: seq<string>, k: string) {
    && k in f && (forall i :: 0 <= i < |e| ==> e[i] in f)
    && (forall j :: 0 <= j < |e| && Split(k, '.')[0] == Split(e[j], '.')[0] ==>
          IndexOf(f, e[j]) < IndexOf(f, k) && forall i :: j < i < |e| ==> IndexOf(f, k) < IndexOf(f, e[i]))
    && ((forall j :: 0 <= j < |e| ==> Split(k, '.')[0] != Split(e[j], '.')[0]) ==>
          forall i :: 0 <= i < |e| ==> IndexOf(f, e[i]) < IndexOf(f, k))
  }

  /** In the flattened matrix, a merged key that is not an existing key is placed among
      the existing keys as `PlacedAmong` says. */
  lemma MatrixPlacement(e: seq<string>, s: seq<string>, k: string)
    requires DistinctFirstParts(e) && NoDotPrefix(e + s) && k in s && k !in e
    ensures MergeFrom(BuildFrom([], e), s).Ok?
    ensures PlacedAmong(Flatten(MergeFrom(BuildFrom([], e), s).value, []), e, k)
  {
    MatrixKeys(e, s);
    var t0 := BuildFrom([], e);
    var t := MergeFrom(t0, s).value;
    var f := Flatten(t, []);
    BuiltDistinct(e);
    MergePrefix(e, s, |s|);
    assert s[..|s|] == s;
    BuiltLead(e);
    MergeKeepsLead(t0, s, e);
    var n :| 0 <= n < |s| && s[n] == k;
    assert Walk(t, Split(k, '.')) == Some(Leaf);
    forall i | 0 <= i < |e| ensures Walk(t, Split(e[i], '.')) == Some(Leaf) {
      assert Walk(t0, Split(e[i], '.')) == Some(Leaf);
    }
    forall j | 0 <= j < |e| && Split(k, '.')[0] == Split(e[j], '.')[0]
      ensures IndexOf(f, e[j]) < IndexOf(f, k) && forall i :: j < i < |e| ==> IndexOf(f, k) < IndexOf(f, e[i])
    {
      SameBranchAfter(t, e, j, k);
      forall i | j < i < |e| ensures IndexOf(f, k) < IndexOf(f, e[i]) {
        ExistingOrder(t, e, k, j, i);
      }
    }
    if forall j :: 0 <= j < |e| ==> Split(k, '.')[0] != Split(e[j], '.')[0] {
      forall i | 0 <= i < |e| ensures IndexOf(f, e[i]) < IndexOf(f, k) {
        NewBranchAfter(t, e, i, k);
      }
    }
  }

  /** Keeping first occurrences keeps a placement. */
  lemma PlacedFirstOccurrences(f: seq<string>, e: seq<string>, k: string)
    requires PlacedAmong(f, e, k)
    ensures PlacedAmong(FirstOccurrences(f, {}), e, k)
  {
    var r := FirstOccurrences(f, {});
    forall j | 0 <= j < |e| && Split(k, '.')[0] == Split(e[j], '.')[0]
      ensures IndexOf(r, e[j]) < IndexOf(r, k) && forall i :: j < i < |e| ==> IndexOf(r, k) < IndexOf(r, e[i])
    {
      FirstOccurrencesBefore(f, e[j], k);
      forall i | j < i < |e| ensures IndexOf(r, k) < IndexOf(r, e[i]) {
        FirstOccurrencesBefore(f, k, e[i]);
      }
    }
    if forall j :: 0 <= j < |e| ==> Split(k, '.')[0] != Split(e[j], '.')[0] {
      forall i | 0 <= i < |e| ensures IndexOf(r, e[i]) < IndexOf(r, k) {
        FirstOccurrencesBefore(f, e[i], k);
      }
    }
  }

  /** Where `process` puts an extracted key that is not an existing key, under the
      conditions of `ProcessNestedKeys`: after the existing key with the same first part
      and before every later existing key; after all existing keys when no existing key
      has its first part. */
  lemma ProcessNewKeys(p: Processor, collator: Collator, draft: TranslationCollection, extracted: TranslationCollection, existing: TranslationCollection, k: string)
    requires DistinctFirstParts(existing.keys)
    requires NoDotPrefix(existing.keys + extracted.keys)
    requires k in extracted.keys && k !in existing.keys
    ensures ProcessSpec(p, collator, draft, extracted, existing).Ok?
    ensures PlacedAmong(ProcessSpec(p, collator, draft, extracted, existing).value.keys, existing.keys, k)
  {
    var e := existing.keys;
    var s := Sort(extracted, CompareFn(p.sortSensitivity, collator)).keys;
    SortedNoDotPrefix(e, extracted.keys, s);
    assert k in multiset(s);
    MatrixPlacement(e, s, k);
    var f := Flatten(MergeFrom(BuildFrom([], e), s).value, []);
    var r := ProcessSpec(p, collator, draft, extracted, existing).value;
    assert r.keys == FirstOccurrences(f, {});
    PlacedFirstOccurrences(f, e, k);
  }
}
