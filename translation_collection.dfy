/** `TranslationCollection`: an insertion-ordered map from translation key to
    `{value, sourceFiles}`. Every operation returns a new collection; the
    plain JavaScript object behind it is modelled by an ordered key list and a
    map, where assigning to a present key keeps its position and assigning to
    a new key appends it. */
module Collections {
  import opened Wrappers
  import opened JsString
  import opened JsArraySort

  /** `{value, sourceFiles}`; `None` stands for `null` or `undefined`. */
  datatype Entry = Entry(value: Option<string>, sourceFiles: seq<Option<string>>)

  datatype Dict = Dict(keys: seq<string>, values: map<string, Entry>)

  /** The keys are listed once each, and are exactly the keys of the map. */
  ghost predicate WellFormed(d: Dict) {
    Distinct(d.keys) && forall k :: k in d.values <==> k in d.keys
  }

  type TranslationCollection = d: Dict | WellFormed(d) witness Dict([], map[])

  /** The first elements of `s` are `t`. */
  predicate StartsWithSeq(s: seq<string>, t: seq<string>) {
    |t| <= |s| && s[..|t|] == t
  }

  /** Elements of `s` that occur in `t` appear in the order of their first occurrence in `t`. */
  predicate KeepsOrder(s: seq<string>, t: seq<string>) {
    forall i, j :: 0 <= i < j < |s| && s[i] in t && s[j] in t ==> IndexOf(t, s[i]) < IndexOf(t, s[j])
  }

  function Empty(): (r: TranslationCollection)
    ensures r.keys == [] && r.values == map[]
  {
    Dict([], map[])
  }

  /** `has(key)`. */
  function Has(c: TranslationCollection, key: string): (r: bool)
    ensures r <==> key in c.keys
  {
    key in c.values
  }

  /** `get(key)`; `None` stands for `undefined`. */
  function Get(c: TranslationCollection, key: string): (r: Option<Entry>)
    ensures r.Some? <==> key in c.keys
    ensures r.Some? ==> r.value == c.values[key]
  {
    if key in c.values then Some(c.values[key]) else None
  }

  /** `keys()`: each key once, in insertion order. */
  function Keys(c: TranslationCollection): (r: seq<string>)
    ensures Distinct(r)
    ensures forall k :: k in r <==> k in c.values
  {
    c.keys
  }

  lemma {:induction false} DistinctCardinality(s: seq<string>)
    requires Distinct(s)
    ensures |set k | k in s| == |s|
  {
    if s != [] {
      var t := s[1..];
      assert Distinct(t);
      DistinctCardinality(t);
      assert (set k | k in s) == (set k | k in t) + {s[0]};
      assert s[0] !in t;
    }
  }

  /** `count()`: the number of keys of the collection. */
  function Count(c: TranslationCollection): (r: nat)
    ensures r == |c.values.Keys|
  {
    DistinctCardinality(c.keys);
    assert c.values.Keys == set k | k in c.keys;
    |c.keys|
  }

  /** `isEmpty()`. */
  function IsEmpty(c: TranslationCollection): (r: bool)
    ensures r <==> c.values == map[]
  {
    assert c.values != map[] ==> c.keys != [] by {
      if c.values != map[] {
        var k :| k in c.values;
        assert k in c.keys;
      }
    }
    assert c.keys != [] ==> c.keys[0] in c.values;
    assert c.keys == [] ==> c.values == map[] by {
      if c.keys == [] {
        assert forall k :: k !in c.values;
      }
    }
    |c.keys| == 0
  }

  /** `values[key] = e` on the plain object behind the collection. */
  function Put(c: TranslationCollection, key: string, e: Entry): (r: TranslationCollection)
    ensures r.keys == if key in c.values then c.keys else c.keys + [key]
    ensures r.values == c.values[key := e]
  {
    Dict(if key in c.values then c.keys else c.keys + [key], c.values[key := e])
  }

  function KeysOf(pairs: seq<(string, Entry)>): (ks: seq<string>)
    ensures |ks| == |pairs|
    ensures forall i :: 0 <= i < |pairs| ==> ks[i] == pairs[i].0
  {
    seq(|pairs|, i requires 0 <= i < |pairs| => pairs[i].0)
  }

  /** The elements of `ks` not in `seen`, each once, in order of first occurrence. */
  function FirstOccurrences(ks: seq<string>, seen: set<string>): (r: seq<string>)
    ensures forall x :: x in r <==> x in ks && x !in seen
    ensures |r| <= |ks|
  {
    if ks == [] then []
    else if ks[0] in seen then FirstOccurrences(ks[1..], seen)
    else [ks[0]] + FirstOccurrences(ks[1..], seen + {ks[0]})
  }

  lemma {:induction false} FirstOccurrencesDistinct(ks: seq<string>, seen: set<string>)
    ensures Distinct(FirstOccurrences(ks, seen))
  {
    if ks != [] {
      FirstOccurrencesDistinct(ks[1..], seen);
      FirstOccurrencesDistinct(ks[1..], seen + {ks[0]});
    }
  }

  lemma {:induction false} FirstOccurrencesOrder(ks: seq<string>, seen: set<string>)
    ensures KeepsOrder(FirstOccurrences(ks, seen), ks)
  {
    if ks != [] {
      if ks[0] in seen {
        var rest := FirstOccurrences(ks[1..], seen);
        FirstOccurrencesOrder(ks[1..], seen);
        KeepsOrderCons(ks, [], rest);
        assert [] + rest == rest;
      } else {
        FirstOccurrencesOrder(ks[1..], seen + {ks[0]});
        KeepsOrderCons(ks, [ks[0]], FirstOccurrences(ks[1..], seen + {ks[0]}));
      }
    }
  }

  /** No later pair assigns the key of pair `i`. */
  predicate IsLast(pairs: seq<(string, Entry)>, i: nat)
    requires i < |pairs|
  {
    forall j :: i < j < |pairs| ==> pairs[j].0 != pairs[i].0
  }

  /** The pairs assigned one after another, as a loop filling the object does. */
  function PutAll(c: TranslationCollection, pairs: seq<(string, Entry)>): (r: TranslationCollection)
    decreases |pairs|
  {
    if pairs == [] then c else PutAll(Put(c, pairs[0].0, pairs[0].1), pairs[1..])
  }

  lemma KeysOfTail(pairs: seq<(string, Entry)>)
    requires pairs != []
    ensures KeysOf(pairs) == [pairs[0].0] + KeysOf(pairs[1..])
  {
  }

  /** The first occurrences in `[k] + rest`: `k` unless it was seen, then those of `rest`. */
  lemma FirstOccurrencesCons(k: string, rest: seq<string>, seen: set<string>)
    ensures FirstOccurrences([k] + rest, seen) == (if k in seen then [] else [k]) + FirstOccurrences(rest, seen + {k})
  {
    assert ([k] + rest)[1..] == rest;
    if k in seen {
      assert seen + {k} == seen;
    }
  }

  /** A new key is appended the first time it is assigned; a present key keeps its place. */
  lemma {:induction false} PutAllKeys(c: TranslationCollection, pairs: seq<(string, Entry)>)
    ensures PutAll(c, pairs).keys == c.keys + FirstOccurrences(KeysOf(pairs), c.values.Keys)
    decreases |pairs|
  {
    if pairs != [] {
      var k, rest := pairs[0].0, pairs[1..];
      var d := Put(c, k, pairs[0].1);
      var head: seq<string> := if k in c.values then [] else [k];
      PutAllKeys(d, rest);
      assert d.keys == c.keys + head && d.values.Keys == c.values.Keys + {k};
      KeysOfTail(pairs);
      KeyThenRest(c.keys, d.keys, PutAll(d, rest).keys, c.values.Keys, d.values.Keys, k, KeysOf(rest), KeysOf(pairs));
    }
  }

  /** The keys after one new or present key, then after the rest. */
  lemma KeyThenRest(before: seq<string>, middle: seq<string>, after: seq<string>, seen: set<string>, seenMiddle: set<string>,
                    k: string, rest: seq<string>, all: seq<string>)
    requires middle == before + (if k in seen then [] else [k])
    requires seenMiddle == seen + {k}
    requires after == middle + FirstOccurrences(rest, seenMiddle)
    requires all == [k] + rest
    ensures after == before + FirstOccurrences(all, seen)
  {
    FirstOccurrencesCons(k, rest, seen);
    var head: seq<string> := if k in seen then [] else [k];
    assert before + head + FirstOccurrences(rest, seenMiddle) == before + (head + FirstOccurrences(rest, seenMiddle));
  }

  /** The result holds the receiver's keys and every assigned key. */
  lemma {:induction false} PutAllDomain(c: TranslationCollection, pairs: seq<(string, Entry)>)
    ensures forall k :: k in PutAll(c, pairs).values <==> k in c.values || k in KeysOf(pairs)
    decreases |pairs|
  {
    if pairs != [] {
      PutAllDomain(Put(c, pairs[0].0, pairs[0].1), pairs[1..]);
      KeysOfTail(pairs);
    }
  }

  /** A key that is never assigned keeps its entry. */
  lemma {:induction false} PutAllUnassigned(c: TranslationCollection, pairs: seq<(string, Entry)>, k: string)
    requires k in c.values && k !in KeysOf(pairs)
    ensures k in PutAll(c, pairs).values && PutAll(c, pairs).values[k] == c.values[k]
    decreases |pairs|
  {
    if pairs != [] {
      KeysOfTail(pairs);
      PutAllUnassigned(Put(c, pairs[0].0, pairs[0].1), pairs[1..], k);
    }
  }

  /** The last assignment to a key decides its entry. */
  lemma {:induction false} PutAllLastWins(c: TranslationCollection, pairs: seq<(string, Entry)>, i: nat)
    requires i < |pairs| && IsLast(pairs, i)
    ensures pairs[i].0 in PutAll(c, pairs).values && PutAll(c, pairs).values[pairs[i].0] == pairs[i].1
    decreases |pairs|
  {
    var d := Put(c, pairs[0].0, pairs[0].1);
    if i == 0 {
      assert pairs[0].0 !in KeysOf(pairs[1..]);
      PutAllUnassigned(d, pairs[1..], pairs[0].0);
    } else {
      assert IsLast(pairs[1..], i - 1);
      PutAllLastWins(d, pairs[1..], i - 1);
    }
  }

  /** The entries in key order, as `Object.entries` lists them. */
  function Entries(c: TranslationCollection): (r: seq<(string, Entry)>)
    ensures KeysOf(r) == c.keys
    ensures forall i :: 0 <= i < |r| ==> r[i].0 in c.values && r[i].1 == c.values[r[i].0]
  {
    assert forall i :: 0 <= i < |c.keys| ==> c.keys[i] in c.keys;
    seq(|c.keys|, i requires 0 <= i < |c.keys| => (c.keys[i], c.values[c.keys[i]]))
  }

  lemma EntriesLast(c: TranslationCollection, k: string)
    requires k in c.values
    ensures IndexOf(c.keys, k) < |Entries(c)| && IsLast(Entries(c), IndexOf(c.keys, k))
  {
  }

  /** The elements of `ks` that `keep` accepts, in their order. */
  function Select(ks: seq<string>, keep: string -> bool): (r: seq<string>)
    ensures forall x :: x in r <==> x in ks && keep(x)
  {
    if ks == [] then []
    else (if keep(ks[0]) then [ks[0]] else []) + Select(ks[1..], keep)
  }

  lemma {:induction false} SelectDistinct(ks: seq<string>, keep: string -> bool)
    requires Distinct(ks)
    ensures Distinct(Select(ks, keep))
  {
    if ks != [] {
      SelectDistinct(ks[1..], keep);
    }
  }

  lemma IndexOfTail(ks: seq<string>, y: string)
    requires y in ks && y != ks[0]
    ensures y in ks[1..] && IndexOf(ks, y) == 1 + IndexOf(ks[1..], y)
  {
  }

  /** Putting the first element of `ks` in front of later elements keeps the order of `ks`. */
  lemma KeepsOrderCons(ks: seq<string>, head: seq<string>, rest: seq<string>)
    requires ks != [] && (head == [] || head == [ks[0]])
    requires forall x :: x in rest ==> x in ks[1..] && x != ks[0]
    requires KeepsOrder(rest, ks[1..])
    ensures KeepsOrder(head + rest, ks)
  {
    var r, off := head + rest, |head|;
    forall i, j | 0 <= i < j < |r| && r[i] in ks && r[j] in ks
      ensures IndexOf(ks, r[i]) < IndexOf(ks, r[j])
    {
      var y := rest[j - off];
      assert r[j] == y && y in rest;
      IndexOfTail(ks, y);
      if i < off {
        assert r[i] == ks[0];
      } else {
        var x := rest[i - off];
        assert r[i] == x && x in rest;
        IndexOfTail(ks, x);
      }
    }
  }

  lemma {:induction false} SelectOrder(ks: seq<string>, keep: string -> bool)
    requires Distinct(ks)
    ensures KeepsOrder(Select(ks, keep), ks)
  {
    if ks != [] {
      SelectOrder(ks[1..], keep);
      assert ks[0] !in ks[1..];
      KeepsOrderCons(ks, if keep(ks[0]) then [ks[0]] else [], Select(ks[1..], keep));
    }
  }

  /** `add(key, val, sourceFile)`: a new key gets `{value: val, sourceFiles: [sourceFile]}`
      and goes last; a present key keeps its value and place and gains `sourceFile` at the
      end of its source files. */
  function Add(c: TranslationCollection, key: string, val: Option<string>, sourceFile: Option<string>): (r: TranslationCollection)
    ensures key in r.values
    ensures key in c.values ==>
      r.keys == c.keys
      && r.values[key] == Entry(c.values[key].value, c.values[key].sourceFiles + [sourceFile])
    ensures key !in c.values ==> r.keys == c.keys + [key] && r.values[key] == Entry(val, [sourceFile])
  {
    var e := if key in c.values then c.values[key] else Entry(val, []);
    Put(c, key, Entry(e.value, e.sourceFiles + [sourceFile]))
  }

  /** `add` leaves every other key's entry as it was. */
  lemma AddOthers(c: TranslationCollection, key: string, val: Option<string>, sourceFile: Option<string>, k: string)
    requires k != key
    ensures Get(Add(c, key, val, sourceFile), k) == Get(c, k)
  {
  }

  /** `union(other)`: `{...this.values, ...other.values}`. */
  function Union(a: TranslationCollection, b: TranslationCollection): (r: TranslationCollection)
  {
    PutAll(a, Entries(b))
  }

  /** `union` is right-biased: the argument's entry wins, the receiver's keys keep their
      places and the argument's other keys follow in the argument's order. */
  lemma UnionSpec(a: TranslationCollection, b: TranslationCollection)
    ensures forall k :: k in Union(a, b).values <==> k in a.values || k in b.values
    ensures forall k :: k in b.values ==> Union(a, b).values[k] == b.values[k]
    ensures forall k :: k in a.values && k !in b.values ==> Union(a, b).values[k] == a.values[k]
    ensures StartsWithSeq(Union(a, b).keys, a.keys)
    ensures KeepsOrder(Union(a, b).keys[|a.keys|..], b.keys)
  {
    var pairs, r := Entries(b), Union(a, b);
    PutAllKeys(a, pairs);
    PutAllDomain(a, pairs);
    forall k | k in a.values && k !in b.values ensures r.values[k] == a.values[k] {
      PutAllUnassigned(a, pairs, k);
    }
    forall k | k in b.values ensures r.values[k] == b.values[k] {
      EntriesLast(b, k);
      PutAllLastWins(a, pairs, IndexOf(b.keys, k));
    }
    FirstOccurrencesOrder(b.keys, a.values.Keys);
    assert r.keys[|a.keys|..] == FirstOccurrences(b.keys, a.values.Keys);
  }

  /** An assignment in which each key's entry depends on the key alone. */
  lemma {:induction false} PutAllKeyed(c: TranslationCollection, pairs: seq<(string, Entry)>, f: string -> Entry, k: string)
    requires forall i :: 0 <= i < |pairs| ==> pairs[i].1 == f(pairs[i].0)
    requires k in KeysOf(pairs)
    ensures k in PutAll(c, pairs).values && PutAll(c, pairs).values[k] == f(k)
    decreases |pairs|
  {
    var d := Put(c, pairs[0].0, pairs[0].1);
    KeysOfTail(pairs);
    if k in KeysOf(pairs[1..]) {
      PutAllKeyed(d, pairs[1..], f, k);
    } else {
      PutAllUnassigned(d, pairs[1..], k);
    }
  }

  /** `addKeys(keys, sourceFile)`: an object built from the keys, spread over the receiver. */
  function AddKeys(c: TranslationCollection, keys: seq<string>, sourceFile: Option<string>): (r: TranslationCollection)
  {
    Union(c, PutAll(Empty(), BlankPairs(keys, sourceFile)))
  }

  /** The object `addKeys` builds: each key with `{value: '', sourceFiles: [sourceFile]}`. */
  function BlankPairs(keys: seq<string>, sourceFile: Option<string>): (pairs: seq<(string, Entry)>)
    ensures KeysOf(pairs) == keys
    ensures forall i :: 0 <= i < |pairs| ==> pairs[i].1 == Entry(Some(""), [sourceFile])
  {
    var pairs := seq(|keys|, i requires 0 <= i < |keys| => (keys[i], Entry(Some(""), [sourceFile])));
    assert KeysOf(pairs) == keys;
    pairs
  }

  /** Every listed key gets `{value: '', sourceFiles: [sourceFile]}`, replacing an earlier
      entry; every other key keeps its entry, and the receiver's keys keep their places. */
  lemma AddKeysSpec(c: TranslationCollection, keys: seq<string>, sourceFile: Option<string>)
    ensures forall k :: k in AddKeys(c, keys, sourceFile).values <==> k in c.values || k in keys
    ensures forall k :: k in keys ==> AddKeys(c, keys, sourceFile).values[k] == Entry(Some(""), [sourceFile])
    ensures forall k :: k in c.values && k !in keys ==> AddKeys(c, keys, sourceFile).values[k] == c.values[k]
    ensures StartsWithSeq(AddKeys(c, keys, sourceFile).keys, c.keys)
  {
    var e := Entry(Some(""), [sourceFile]);
    var pairs := BlankPairs(keys, sourceFile);
    var b := PutAll(Empty(), pairs);
    PutAllDomain(Empty(), pairs);
    forall k | k in keys ensures k in b.values && b.values[k] == e {
      PutAllKeyed(Empty(), pairs, _ => e, k);
    }
    UnionSpec(c, b);
  }

  /** `filter(callback)`: exactly the entries the callback accepts, unchanged and in order. */
  function Filter(c: TranslationCollection, keep: (string, Entry) -> bool): (r: TranslationCollection)
    ensures forall k :: k in r.values <==> k in c.values && keep(k, c.values[k])
    ensures forall k :: k in r.values ==> r.values[k] == c.values[k]
    ensures KeepsOrder(r.keys, c.keys)
  {
    var accept := (k: string) => k in c.values && keep(k, c.values[k]);
    var ks := Select(c.keys, accept);
    SelectDistinct(c.keys, accept);
    SelectOrder(c.keys, accept);
    Dict(ks, map k | k in ks :: c.values[k])
  }

  /** `map(callback)`: the same keys in the same order, each entry replaced by
      `callback(key, entry)`. */
  function Map(c: TranslationCollection, f: (string, Entry) -> Entry): (r: TranslationCollection)
    ensures r.keys == c.keys
    ensures forall k :: k in c.values ==> k in r.values && r.values[k] == f(k, c.values[k])
  {
    Dict(c.keys, map k | k in c.values :: f(k, c.values[k]))
  }

  /** `remove(key)`: the key is gone, every other key keeps its entry and order. */
  function Remove(c: TranslationCollection, key: string): (r: TranslationCollection)
    ensures key !in r.values
    ensures forall k :: k != key ==> Get(r, k) == Get(c, k)
    ensures KeepsOrder(r.keys, c.keys)
  {
    Filter(c, (k: string, e: Entry) => k != key)
  }

  /** `intersect(other)`: the receiver's keys that the argument also has, with the
      receiver's entries and order. */
  function Intersect(a: TranslationCollection, b: TranslationCollection): (r: TranslationCollection)
    ensures forall k :: k in r.values <==> k in a.values && k in b.values
    ensures forall k :: k in r.values ==> r.values[k] == a.values[k]
    ensures KeepsOrder(r.keys, a.keys)
  {
    Filter(a, (k: string, e: Entry) => Has(b, k))
  }

  /** The comparator `sort(compareFn)` uses: code-unit order when none is given. */
  function ComparatorOf(compareFn: Option<Comparator>): Comparator {
    if compareFn.Some? then compareFn.value else CompareCodeUnits
  }

  /** `sort(compareFn)`: the same entries with the keys rearranged. */
  function Sort(c: TranslationCollection, compareFn: Option<Comparator>): (r: TranslationCollection)
    ensures r.values == c.values
    ensures multiset(r.keys) == multiset(c.keys)
  {
    var ks := SortBy(c.keys, ComparatorOf(compareFn));
    SortByDistinct(c.keys, ComparatorOf(compareFn));
    assert forall k :: k in ks <==> k in c.keys by {
      assert forall k :: k in ks <==> k in multiset(ks);
    }
    Dict(ks, c.values)
  }

  /** With a consistent comparator (the default one is), the keys come out sorted, and
      keys that compare equal keep their previous order. */
  lemma SortSpec(c: TranslationCollection, compareFn: Option<Comparator>)
    requires compareFn.Some? ==> Consistent(compareFn.value)
    ensures Sorted(Sort(c, compareFn).keys, ComparatorOf(compareFn))
    ensures StableFrom(Sort(c, compareFn).keys, c.keys, ComparatorOf(compareFn))
  {
    CodeUnitOrderConsistent();
    SortBySorted(c.keys, ComparatorOf(compareFn));
    SortByStable(c.keys, ComparatorOf(compareFn));
  }

  /** `toKeyValueObject()`: each key with its value, in key order. */
  function ToKeyValueObject(c: TranslationCollection): (r: seq<(string, Option<string>)>)
    ensures |r| == |c.keys|
    ensures forall i :: 0 <= i < |r| ==> r[i].0 == c.keys[i] && r[i].0 in c.values && r[i].1 == c.values[r[i].0].value
  {
    var entries := Entries(c);
    seq(|entries|, i requires 0 <= i < |entries| => (entries[i].0, entries[i].1.value))
  }

  /** The name `stripKeyPrefix` gives a key: with the prefix cut off when the lower-cased
      key starts with the lower-cased prefix. */
  function StrippedKey(key: string, prefix: string): (r: string)
    ensures StartsWith(ToLowerCase(key), ToLowerCase(prefix)) ==>
      |prefix| <= |key| && ToLowerCase(key[..|prefix|]) == ToLowerCase(prefix) && r == key[|prefix|..]
    ensures !StartsWith(ToLowerCase(key), ToLowerCase(prefix)) ==> r == key
  {
    if StartsWith(ToLowerCase(key), ToLowerCase(prefix)) then
      assert ToLowerCase(key[..|prefix|]) == ToLowerCase(key)[..|prefix|];
      key[|prefix|..]
    else key
  }

  function Renamed(c: TranslationCollection, prefix: string): (r: seq<(string, Entry)>)
    ensures |r| == |c.keys|
    ensures forall i :: 0 <= i < |r| ==> r[i] == (StrippedKey(c.keys[i], prefix), c.values[c.keys[i]])
  {
    var entries := Entries(c);
    seq(|entries|, i requires 0 <= i < |entries| => (StrippedKey(entries[i].0, prefix), entries[i].1))
  }

  /** `stripKeyPrefix(prefix)`: each key in turn assigned under its stripped name. */
  function StripKeyPrefix(c: TranslationCollection, prefix: string): (r: TranslationCollection)
  {
    PutAll(Empty(), Renamed(c, prefix))
  }

  /** The result holds exactly the stripped names. */
  lemma StripKeyPrefixDomain(c: TranslationCollection, prefix: string, k: string)
    ensures k in StripKeyPrefix(c, prefix).values <==>
      exists j :: 0 <= j < |c.keys| && StrippedKey(c.keys[j], prefix) == k
  {
    var pairs := Renamed(c, prefix);
    PutAllDomain(Empty(), pairs);
    if k in KeysOf(pairs) {
      var j :| 0 <= j < |pairs| && KeysOf(pairs)[j] == k;
      assert StrippedKey(c.keys[j], prefix) == k;
    }
    if exists j :: 0 <= j < |c.keys| && StrippedKey(c.keys[j], prefix) == k {
      var j :| 0 <= j < |c.keys| && StrippedKey(c.keys[j], prefix) == k;
      assert KeysOf(pairs)[j] == k;
    }
  }

  /** When several keys strip to the same name, the entry of the last of them wins. */
  lemma StripKeyPrefixLastWins(c: TranslationCollection, prefix: string, j: nat)
    requires j < |c.keys|
    requires forall l :: j < l < |c.keys| ==> StrippedKey(c.keys[l], prefix) != StrippedKey(c.keys[j], prefix)
    ensures StrippedKey(c.keys[j], prefix) in StripKeyPrefix(c, prefix).values
    ensures StripKeyPrefix(c, prefix).values[StrippedKey(c.keys[j], prefix)] == c.values[c.keys[j]]
  {
    var pairs := Renamed(c, prefix);
    assert IsLast(pairs, j);
    PutAllLastWins(Empty(), pairs, j);
  }

  /** Stripping never adds keys. */
  lemma StripKeyPrefixCount(c: TranslationCollection, prefix: string)
    ensures Count(StripKeyPrefix(c, prefix)) <= Count(c)
  {
    PutAllKeys(Empty(), Renamed(c, prefix));
  }

  lemma {:induction false} FirstOccurrencesOfDistinct(ks: seq<string>, seen: set<string>)
    requires Distinct(ks)
    requires forall k :: k in ks ==> k !in seen
    ensures FirstOccurrences(ks, seen) == ks
  {
    if ks != [] {
      assert ks[0] !in ks[1..];
      FirstOccurrencesOfDistinct(ks[1..], seen + {ks[0]});
    }
  }

  lemma PutAllEntriesValue(c: TranslationCollection, k: string)
    requires k in c.values
    ensures k in PutAll(Empty(), Entries(c)).values && PutAll(Empty(), Entries(c)).values[k] == c.values[k]
  {
    EntriesLast(c, k);
    PutAllLastWins(Empty(), Entries(c), IndexOf(c.keys, k));
  }

  lemma PutAllEntriesKeys(c: TranslationCollection)
    ensures PutAll(Empty(), Entries(c)).keys == c.keys
    ensures PutAll(Empty(), Entries(c)).values.Keys == c.values.Keys
  {
    var r := PutAll(Empty(), Entries(c));
    PutAllKeys(Empty(), Entries(c));
    assert Empty().values.Keys == {};
    assert KeysOf(Entries(c)) == c.keys;
    FirstOccurrencesOfDistinct(c.keys, {});
    assert r.keys == c.keys;
  }

  /** Assigning a collection's entries, in order, to an empty object rebuilds it. */
  lemma PutAllEntries(c: TranslationCollection)
    ensures PutAll(Empty(), Entries(c)) == c
  {
    var r := PutAll(Empty(), Entries(c));
    assert r.keys == c.keys && r.values.Keys == c.values.Keys by {
      PutAllEntriesKeys(c);
    }
    assert forall k :: k in c.values ==> r.values[k] == c.values[k] by {
      forall k | k in c.values ensures k in r.values && r.values[k] == c.values[k] {
        PutAllEntriesValue(c, k);
      }
    }
    assert r.values == c.values;
  }

  /** The union of the empty collection with `c` is `c`. */
  lemma UnionEmpty(c: TranslationCollection)
    ensures Union(Empty(), c) == c
  {
    PutAllEntries(c);
  }

  /** Stripping the empty prefix gives back the collection. */
  lemma StripEmptyPrefix(c: TranslationCollection)
    ensures StripKeyPrefix(c, "") == c
  {
    var pairs := Renamed(c, "");
    forall i | 0 <= i < |c.keys| ensures pairs[i] == Entries(c)[i] {
      assert StartsWith(ToLowerCase(c.keys[i]), ToLowerCase(""));
    }
    assert pairs == Entries(c);
    PutAllEntries(c);
  }

  /** The elements of `ks`, as a set. */
  function Elements(ks: seq<string>): (r: set<string>)
    ensures forall x :: x in r <==> x in ks
  {
    set x | x in ks
  }

  /** Dropping what was seen in two rounds is dropping what was seen in either. */
  lemma {:induction false} FirstOccurrencesCompose(ks: seq<string>, seen: set<string>, more: set<string>)
    ensures FirstOccurrences(FirstOccurrences(ks, seen), more) == FirstOccurrences(ks, seen + more)
  {
    if ks != [] {
      var k := ks[0];
      if k in seen {
        FirstOccurrencesCompose(ks[1..], seen, more);
      } else {
        FirstOccurrencesCompose(ks[1..], seen + {k}, more);
        if k in more {
          assert seen + {k} + more == seen + more;
        } else {
          FirstOccurrencesCompose(ks[1..], seen + {k}, more + {k});
          assert seen + {k} + (more + {k}) == seen + more + {k};
          assert FirstOccurrences(FirstOccurrences(ks[1..], seen + {k}), more + {k})
              == FirstOccurrences(FirstOccurrences(ks[1..], seen + {k}), more) by {
            FirstOccurrencesSeenAgain(FirstOccurrences(ks[1..], seen + {k}), more, k);
          }
        }
      }
    }
  }

  /** Marking an element as seen that does not occur changes nothing. */
  lemma {:induction false} FirstOccurrencesSeenAgain(ks: seq<string>, seen: set<string>, k: string)
    requires k !in ks
    ensures FirstOccurrences(ks, seen + {k}) == FirstOccurrences(ks, seen)
  {
    if ks != [] {
      if ks[0] in seen {
        FirstOccurrencesSeenAgain(ks[1..], seen, k);
      } else {
        assert seen + {k} + {ks[0]} == seen + {ks[0]} + {k};
        FirstOccurrencesSeenAgain(ks[1..], seen + {ks[0]}, k);
      }
    }
  }

  /** First occurrences in `a + b`: those of `a`, then those of `b` not already in `a`. */
  lemma {:induction false} FirstOccurrencesAppend(a: seq<string>, b: seq<string>, seen: set<string>)
    ensures FirstOccurrences(a + b, seen) == FirstOccurrences(a, seen) + FirstOccurrences(b, seen + Elements(a))
  {
    if a == [] {
      assert a + b == b && seen + Elements(a) == seen;
    } else {
      var k := a[0];
      assert (a + b)[1..] == a[1..] + b;
      if k in seen {
        FirstOccurrencesAppend(a[1..], b, seen);
        assert seen + Elements(a[1..]) == seen + Elements(a);
      } else {
        FirstOccurrencesAppend(a[1..], b, seen + {k});
        assert seen + {k} + Elements(a[1..]) == seen + Elements(a);
      }
    }
  }

  /** `n` copies of `x`. */
  function Repeat(x: Option<string>, n: nat): (r: seq<Option<string>>)
    ensures |r| == n && forall i :: 0 <= i < n ==> r[i] == x
  {
    seq(n, _ => x)
  }

  /** How often `k` occurs in `ks`. */
  function Occurrences(ks: seq<string>, k: string): (n: nat)
    ensures n > 0 <==> k in ks
  {
    multiset(ks)[k]
  }

  /** The receiver's keys stay in place; the listed keys not yet present follow in
      order of first occurrence. */
  lemma AddKeysKeys(c: TranslationCollection, keys: seq<string>, sourceFile: Option<string>)
    ensures AddKeys(c, keys, sourceFile).keys == c.keys + FirstOccurrences(keys, c.values.Keys)
  {
    var pairs := BlankPairs(keys, sourceFile);
    var b := PutAll(Empty(), pairs);
    calc {
      AddKeys(c, keys, sourceFile).keys;
      PutAll(c, Entries(b)).keys;
      { PutAllKeys(c, Entries(b)); }
      c.keys + FirstOccurrences(b.keys, c.values.Keys);
      { PutAllKeys(Empty(), pairs);
        assert Empty().keys == [] && Empty().values.Keys == {};
        assert b.keys == [] + FirstOccurrences(keys, {}) == FirstOccurrences(keys, {}); }
      c.keys + FirstOccurrences(FirstOccurrences(keys, {}), c.values.Keys);
      { FirstOccurrencesCompose(keys, {}, c.values.Keys); assert {} + c.values.Keys == c.values.Keys; }
      c.keys + FirstOccurrences(keys, c.values.Keys);
    }
  }

  /** One `addKeys(group, sourceFile)` after another, as a parser calling it for every
      match does. */
  function AddKeysEach(c: TranslationCollection, groups: seq<seq<string>>, sourceFile: Option<string>): (r: TranslationCollection)
    decreases |groups|
  {
    if groups == [] then c else AddKeysEach(AddKeys(c, groups[0], sourceFile), groups[1..], sourceFile)
  }

  lemma AddKeysEachStep(c: TranslationCollection, groups: seq<seq<string>>, sourceFile: Option<string>, g: seq<string>)
    ensures AddKeysEach(c, [g] + groups, sourceFile) == AddKeysEach(AddKeys(c, g, sourceFile), groups, sourceFile)
  {
    assert ([g] + groups)[1..] == groups;
  }

  /** All groups, one after another. */
  function Concat(groups: seq<seq<string>>): seq<string>
  {
    if groups == [] then [] else groups[0] + Concat(groups[1..])
  }

  /** A key is in the concatenation exactly when some group holds it. */
  lemma {:induction false} ConcatMembership(groups: seq<seq<string>>, x: string)
    ensures x in Concat(groups) <==> exists g :: g in groups && x in g
  {
    if groups != [] {
      ConcatMembership(groups[1..], x);
      assert groups == [groups[0]] + groups[1..];
      if x in Concat(groups) {
        if x in groups[0] {
          assert groups[0] in groups;
        } else {
          var g :| g in groups[1..] && x in g;
          assert g in groups;
        }
      }
      if exists g :: g in groups && x in g {
        var g :| g in groups && x in g;
        if g != groups[0] {
          assert g in groups[1..];
        }
      }
    }
  }

  /** After a run of `addKeys` calls, the receiver's keys stay in place and the keys
      mentioned that are new follow in order of first mention. */
  lemma {:induction false} AddKeysEachKeys(c: TranslationCollection, groups: seq<seq<string>>, sourceFile: Option<string>)
    ensures AddKeysEach(c, groups, sourceFile).keys == c.keys + FirstOccurrences(Concat(groups), c.values.Keys)
    decreases |groups|
  {
    if groups != [] {
      var g, rest := groups[0], Concat(groups[1..]);
      var d := AddKeys(c, g, sourceFile);
      AddKeysEachKeys(d, groups[1..], sourceFile);
      AddKeysKeys(c, g, sourceFile);
      AddKeysDomain(c, g, sourceFile);
      KeysThenRest(c.keys, d.keys, AddKeysEach(d, groups[1..], sourceFile).keys, c.values.Keys, d.values.Keys, g, rest);
      assert Concat(groups) == g + rest;
    }
  }

  /** The keys after one group, then after the rest. */
  lemma KeysThenRest(before: seq<string>, middle: seq<string>, after: seq<string>, seen: set<string>, seenMiddle: set<string>,
                     g: seq<string>, rest: seq<string>)
    requires middle == before + FirstOccurrences(g, seen)
    requires seenMiddle == seen + Elements(g)
    requires after == middle + FirstOccurrences(rest, seenMiddle)
    ensures after == before + FirstOccurrences(g + rest, seen)
  {
    FirstOccurrencesAppend(g, rest, seen);
  }

  lemma AddKeysDomain(c: TranslationCollection, keys: seq<string>, sourceFile: Option<string>)
    ensures AddKeys(c, keys, sourceFile).values.Keys == c.values.Keys + Elements(keys)
  {
    AddKeysSpec(c, keys, sourceFile);
  }

  /** After a run of `addKeys` calls, a key mentioned in some group has `{value: '',
      sourceFiles: [sourceFile]}`, and any other key is as before. */
  lemma {:induction false} AddKeysEachEntry(c: TranslationCollection, groups: seq<seq<string>>, sourceFile: Option<string>, k: string)
    ensures k in AddKeysEach(c, groups, sourceFile).values <==> k in c.values || k in Concat(groups)
    ensures k in Concat(groups) ==> AddKeysEach(c, groups, sourceFile).values[k] == Entry(Some(""), [sourceFile])
    ensures k in c.values && k !in Concat(groups) ==> AddKeysEach(c, groups, sourceFile).values[k] == c.values[k]
    decreases |groups|
  {
    if groups != [] {
      var g := groups[0];
      AddKeysSpec(c, g, sourceFile);
      AddKeysEachEntry(AddKeys(c, g, sourceFile), groups[1..], sourceFile, k);
      assert k in Concat(groups) <==> k in g || k in Concat(groups[1..]);
    }
  }

  /** One `add(key, val, sourceFile)` after another. */
  function AddEach(c: TranslationCollection, keys: seq<string>, val: Option<string>, sourceFile: Option<string>): (r: TranslationCollection)
    decreases |keys|
  {
    if keys == [] then c else AddEach(Add(c, keys[0], val, sourceFile), keys[1..], val, sourceFile)
  }

  lemma AddEachStep(c: TranslationCollection, key: string, rest: seq<string>, val: Option<string>, sourceFile: Option<string>)
    ensures AddEach(c, [key] + rest, val, sourceFile) == AddEach(Add(c, key, val, sourceFile), rest, val, sourceFile)
  {
    assert ([key] + rest)[1..] == rest;
  }

  /** One step of a loop over `keys`: the key at `j`, then the ones after it. */
  lemma AddEachAt(c: TranslationCollection, keys: seq<string>, j: nat, val: Option<string>, sourceFile: Option<string>)
    requires j < |keys|
    ensures AddEach(c, keys[j..], val, sourceFile) == AddEach(Add(c, keys[j], val, sourceFile), keys[j + 1..], val, sourceFile)
  {
    assert keys[j..][1..] == keys[j + 1..];
  }

  lemma {:induction false} AddEachAppend(c: TranslationCollection, a: seq<string>, b: seq<string>, val: Option<string>, sourceFile: Option<string>)
    ensures AddEach(c, a + b, val, sourceFile) == AddEach(AddEach(c, a, val, sourceFile), b, val, sourceFile)
    decreases |a|
  {
    if a == [] {
      assert a + b == b;
    } else {
      assert a + b == [a[0]] + (a[1..] + b);
      AddEachStep(c, a[0], a[1..] + b, val, sourceFile);
      AddEachAppend(Add(c, a[0], val, sourceFile), a[1..], b, val, sourceFile);
    }
  }

  /** After a run of `add` calls, the receiver's keys stay in place and new keys follow in
      order of first mention. */
  lemma {:induction false} AddEachKeys(c: TranslationCollection, keys: seq<string>, val: Option<string>, sourceFile: Option<string>)
    ensures AddEach(c, keys, val, sourceFile).keys == c.keys + FirstOccurrences(keys, c.values.Keys)
    decreases |keys|
  {
    if keys != [] {
      var k, rest := keys[0], keys[1..];
      var d := Add(c, k, val, sourceFile);
      AddEachKeys(d, rest, val, sourceFile);
      AddKeysStep(c, k, val, sourceFile);
      HeadThenTail(keys);
      KeyThenRest(c.keys, d.keys, AddEach(d, rest, val, sourceFile).keys, c.values.Keys, d.values.Keys, k, rest, keys);
    }
  }

  lemma HeadThenTail(keys: seq<string>)
    requires keys != []
    ensures keys == [keys[0]] + keys[1..]
  {
  }

  /** The keys and the domain after one `add`. */
  lemma AddKeysStep(c: TranslationCollection, key: string, val: Option<string>, sourceFile: Option<string>)
    ensures Add(c, key, val, sourceFile).keys == c.keys + (if key in c.values then [] else [key])
    ensures Add(c, key, val, sourceFile).values.Keys == c.values.Keys + {key}
  {
  }

  lemma OccurrencesCons(keys: seq<string>, k: string)
    requires keys != []
    ensures Occurrences(keys, k) == Occurrences(keys[1..], k) + (if k == keys[0] then 1 else 0)
  {
    assert keys == [keys[0]] + keys[1..];
    assert multiset(keys) == multiset{keys[0]} + multiset(keys[1..]);
  }

  lemma RepeatCons(x: Option<string>, n: nat)
    ensures [x] + Repeat(x, n) == Repeat(x, n + 1)
  {
  }

  /** After a run of `add` calls, every mention of a key appends the source file once: a
      key present before keeps its value, a new key gets `val`. */
  lemma AddEachEntry(c: TranslationCollection, keys: seq<string>, val: Option<string>, sourceFile: Option<string>, k: string)
    ensures k in AddEach(c, keys, val, sourceFile).values <==> k in c.values || k in keys
    ensures k in c.values ==>
      AddEach(c, keys, val, sourceFile).values[k] == Entry(c.values[k].value, c.values[k].sourceFiles + Repeat(sourceFile, Occurrences(keys, k)))
    ensures k in keys && k !in c.values ==>
      AddEach(c, keys, val, sourceFile).values[k] == Entry(val, Repeat(sourceFile, Occurrences(keys, k)))
  {
    AddEachGet(c, keys, val, sourceFile, k);
  }

  /** The entry of a key after `count` calls `add(key, val, sourceFile)`. */
  function AfterAdds(e: Option<Entry>, val: Option<string>, sourceFile: Option<string>, count: nat): Option<Entry> {
    if e.Some? then Some(Entry(e.value.value, e.value.sourceFiles + Repeat(sourceFile, count)))
    else if count > 0 then Some(Entry(val, Repeat(sourceFile, count)))
    else None
  }

  lemma AfterAddsCompose(e: Option<Entry>, val: Option<string>, sourceFile: Option<string>, m: nat, n: nat)
    ensures AfterAdds(AfterAdds(e, val, sourceFile, m), val, sourceFile, n) == AfterAdds(e, val, sourceFile, m + n)
  {
    assert Repeat(sourceFile, m) + Repeat(sourceFile, n) == Repeat(sourceFile, m + n);
    if e.Some? {
      var fs := e.value.sourceFiles;
      assert fs + Repeat(sourceFile, m) + Repeat(sourceFile, n) == fs + Repeat(sourceFile, m + n);
    } else if m == 0 {
      assert Repeat(sourceFile, 0) + Repeat(sourceFile, n) == Repeat(sourceFile, n);
    }
  }

  lemma {:induction false} AddEachGet(c: TranslationCollection, keys: seq<string>, val: Option<string>, sourceFile: Option<string>, k: string)
    ensures Get(AddEach(c, keys, val, sourceFile), k) == AfterAdds(Get(c, k), val, sourceFile, Occurrences(keys, k))
    decreases |keys|
  {
    if keys == [] {
      assert Get(c, k).Some? ==> Get(c, k).value.sourceFiles + Repeat(sourceFile, 0) == Get(c, k).value.sourceFiles;
    } else {
      var k0 := keys[0];
      var d := Add(c, k0, val, sourceFile);
      var m := if k == k0 then 1 else 0;
      var n := Occurrences(keys[1..], k);
      OccurrencesCons(keys, k);
      AddEachGet(d, keys[1..], val, sourceFile, k);
      AddEntry(c, k0, val, sourceFile, k);
      AfterAddsCompose(Get(c, k), val, sourceFile, m, n);
    }
  }

  /** One `add(k0, val, sourceFile)`, seen from the entry of `k`. */
  lemma AddEntry(c: TranslationCollection, k0: string, val: Option<string>, sourceFile: Option<string>, k: string)
    ensures Get(Add(c, k0, val, sourceFile), k) == AfterAdds(Get(c, k), val, sourceFile, if k == k0 then 1 else 0)
  {
    var d := Add(c, k0, val, sourceFile);
    if k != k0 {
      AddOthers(c, k0, val, sourceFile, k);
      if k in c.values {
        assert c.values[k].sourceFiles + Repeat(sourceFile, 0) == c.values[k].sourceFiles;
      }
    } else {
      assert Repeat(sourceFile, 1) == [sourceFile];
    }
  }
}
