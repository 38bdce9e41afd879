/** `DevFusionUtils.compareJSONObjects` (js/utils.js): a recursive walk over
    two parsed JSON objects that reports, path by path, which values were
    added, removed or modified. */
module JsonCompare {
  import opened Wrappers
  import Text

  /** A parsed JSON value. An object is the sequence of its own properties
      in `Object.keys` order (integer-like keys ascending, then the others in
      insertion order), not in the order of the JSON text; an array is the
      object whose keys are its indices ("0", "1", ...). */
  datatype Json =
    | Null
    | Bool(b: bool)
    | Num(n: int)
    | Str(s: string)
    | Obj(fields: seq<(string, Json)>)

  type Fields = seq<(string, Json)>

  datatype ChangeType = Added | Removed | Modified

  /** One element of the `differences` array: `{path, oldValue, newValue,
      type}`; a missing value (`undefined`) is `None`. */
  datatype Difference = Difference(path: string, oldValue: Option<Json>, newValue: Option<Json>, kind: ChangeType)

  // ---------------------------------------------------------------------
  // Objects

  /** `Object.keys(obj)`. */
  function Keys(obj: Fields): (ks: seq<string>)
    ensures |ks| == |obj|
    ensures forall i :: 0 <= i < |obj| ==> ks[i] == obj[i].0
  {
    if |obj| == 0 then [] else Keys(obj[..|obj| - 1]) + [obj[|obj| - 1].0]
  }

  /** The position of `key` among the properties of `obj`, or `|obj|`. */
  function IndexOfKey(obj: Fields, key: string): (i: nat)
    ensures i <= |obj|
    ensures i < |obj| ==> obj[i].0 == key
    ensures forall k :: 0 <= k < i ==> obj[k].0 != key
  {
    if |obj| == 0 || obj[0].0 == key then 0 else 1 + IndexOfKey(obj[1..], key)
  }

  /** `obj?.[key]` restricted to own properties: the property's value, or
      `None` for `undefined`. Inherited properties (`Object.prototype`
      members, an array's `length`) are not modelled. */
  function Get(obj: Fields, key: string): (v: Option<Json>)
    ensures v.None? <==> key !in Keys(obj)
  {
    var i := IndexOfKey(obj, key);
    if i < |obj| then Some(obj[i].1) else None
  }

  /** JavaScript objects never repeat a key, at any depth. */
  predicate WellFormed(obj: Fields)
    decreases Obj(obj)
  {
    && (forall i, j :: 0 <= i < j < |obj| ==> obj[i].0 != obj[j].0)
    && (forall p | p in obj && p.1.Obj? :: WellFormed(p.1.fields))
  }

  /** Iterating a `Set` built from `keys`: each key once, at its first
      position. */
  function Dedup(keys: seq<string>): (r: seq<string>)
    ensures forall k :: k in r <==> k in keys
    ensures forall i, j :: 0 <= i < j < |r| ==> r[i] != r[j]
  {
    if |keys| == 0 then []
    else
      var d := Dedup(keys[..|keys| - 1]);
      if keys[|keys| - 1] in d then d else d + [keys[|keys| - 1]]
  }

  /** `new Set([...Object.keys(obj1), ...Object.keys(obj2)])`. */
  function AllKeys(obj1: Fields, obj2: Fields): seq<string> {
    Dedup(Keys(obj1) + Keys(obj2))
  }

  /** `path ? `${path}.${key}` : key`. */
  function ChildPath(path: string, key: string): string {
    if path == "" then key else path + "." + key
  }

  /** The `type` of a record: `added` when the left value is missing,
      `removed` when the right one is, `modified` otherwise. */
  function Kind(val1: Option<Json>, val2: Option<Json>): ChangeType {
    if val1.None? then Added else if val2.None? then Removed else Modified
  }

  predicate BothObjects(val1: Option<Json>, val2: Option<Json>) {
    val1.Some? && val1.value.Obj? && val2.Some? && val2.value.Obj?
  }

  /** What every emitted record satisfies: its type agrees with which side
      is missing, its two values differ, and they are not both objects
      (those are recursed into instead). */
  predicate Classified(d: Difference) {
    && (d.kind == Added <==> d.oldValue.None?)
    && (d.kind == Removed <==> d.newValue.None?)
    && d.oldValue != d.newValue
    && !BothObjects(d.oldValue, d.newValue)
  }

  // ---------------------------------------------------------------------
  // The comparison, as functions

  /** `compareJSONObjects(obj1, obj2, path)`. */
  function Compare(obj1: Fields, obj2: Fields, path: string): (r: seq<Difference>)
    ensures forall d :: d in r ==> Classified(d)
    decreases Obj(obj1), 2
  {
    CompareKeys(obj1, obj2, AllKeys(obj1, obj2), path)
  }

  /** The records of the loop over `keys`, in order. */
  function CompareKeys(obj1: Fields, obj2: Fields, keys: seq<string>, path: string): (r: seq<Difference>)
    ensures forall d :: d in r ==> Classified(d)
    decreases Obj(obj1), 1, |keys|
  {
    if |keys| == 0 then []
    else CompareKeys(obj1, obj2, keys[..|keys| - 1], path) + CompareKey(obj1, obj2, keys[|keys| - 1], path)
  }

  /** The records of one iteration of the loop, for `key`. */
  function CompareKey(obj1: Fields, obj2: Fields, key: string, path: string): (r: seq<Difference>)
    ensures forall d :: d in r ==> Classified(d)
    decreases Obj(obj1), 0, 0
  {
    var currentPath := ChildPath(path, key);
    var i := IndexOfKey(obj1, key);
    var val1 := Get(obj1, key);
    var val2 := Get(obj2, key);
    if val1 == val2 then []
    else if BothObjects(val1, val2) then
      assert val1.value == obj1[i].1 && obj1[i] in obj1;
      Compare(obj1[i].1.fields, val2.value.fields, currentPath)
    else [Difference(currentPath, val1, val2, Kind(val1, val2))]
  }

  // ---------------------------------------------------------------------
  // The comparison, as the source computes it

  /** `compareJSONObjects`: the loop over the keys pushes the records of
      each key onto `differences`, recursing where both values are
      objects. */
  method CompareJsonObjects(obj1: Fields, obj2: Fields, path: string) returns (differences: seq<Difference>)
    ensures differences == Compare(obj1, obj2, path)
    decreases Obj(obj1)
  {
    differences := [];
    var allKeys := AllKeys(obj1, obj2);
    for n := 0 to |allKeys|
      invariant differences == CompareKeys(obj1, obj2, allKeys[..n], path)
    {
      var key := allKeys[n];
      var currentPath := ChildPath(path, key);
      var val1 := Get(obj1, key);
      var val2 := Get(obj2, key);
      assert allKeys[..n + 1][..n] == allKeys[..n];
      if val1 != val2 {
        if BothObjects(val1, val2) {
          var i := IndexOfKey(obj1, key);
          assert val1.value == obj1[i].1 && obj1[i] in obj1;
          var nested := CompareJsonObjects(obj1[i].1.fields, val2.value.fields, currentPath);
          differences := differences + nested;
        } else {
          differences := differences + [Difference(currentPath, val1, val2, Kind(val1, val2))];
        }
      }
    }
    assert allKeys[..|allKeys|] == allKeys;
  }

  // ---------------------------------------------------------------------
  // Key order

  /** The keys of `ks` that do not occur in `excluded`, in order. */
  function Without(ks: seq<string>, excluded: seq<string>): (r: seq<string>)
    ensures forall k :: k in r <==> k in ks && k !in excluded
  {
    if |ks| == 0 then []
    else
      var last := ks[|ks| - 1];
      Without(ks[..|ks| - 1], excluded) + (if last in excluded then [] else [last])
  }

  lemma {:induction false} WithoutSnoc(ks: seq<string>, k: string, excluded: seq<string>)
    ensures Without(ks + [k], excluded) == Without(ks, excluded) + (if k in excluded then [] else [k])
  {
    assert (ks + [k])[..|ks|] == ks;
  }

  lemma {:induction false} DedupSnoc(ks: seq<string>, k: string)
    ensures Dedup(ks + [k]) == if k in ks then Dedup(ks) else Dedup(ks) + [k]
  {
    assert (ks + [k])[..|ks|] == ks;
  }

  lemma {:induction false} DedupAppend(xs: seq<string>, ys: seq<string>)
    ensures Dedup(xs + ys) == Dedup(xs) + Without(Dedup(ys), xs)
    decreases |ys|
  {
    if |ys| == 0 {
      assert xs + ys == xs;
    } else {
      var ys', y := ys[..|ys| - 1], ys[|ys| - 1];
      DedupAppend(xs, ys');
      DedupAppendStep(xs, ys', y);
      SplitLast(xs, ys);
    }
  }

  lemma {:induction false} SplitLast(xs: seq<string>, ys: seq<string>)
    requires |ys| > 0
    ensures ys[..|ys| - 1] + [ys[|ys| - 1]] == ys
    ensures (xs + ys[..|ys| - 1]) + [ys[|ys| - 1]] == xs + ys
  {
  }

  /** One more key on the right of `DedupAppend`. */
  lemma {:induction false} DedupAppendStep(xs: seq<string>, ys: seq<string>, y: string)
    requires Dedup(xs + ys) == Dedup(xs) + Without(Dedup(ys), xs)
    ensures Dedup((xs + ys) + [y]) == Dedup(xs) + Without(Dedup(ys + [y]), xs)
  {
    DedupSnoc(xs + ys, y);
    DedupSnoc(ys, y);
    var d := Dedup(ys);
    WithoutSnoc(d, y, xs);
    assert y in xs + ys <==> y in xs || y in ys;
    SnocCases(Dedup(xs + ys), Dedup((xs + ys) + [y]), Dedup(xs), Without(d, xs),
              Without(Dedup(ys + [y]), xs), y, y in xs, y in ys);
  }

  /** The three cases of `DedupAppendStep` on plain values: a key already
      seen on either side changes neither side, a new key joins both. */
  lemma {:induction false} SnocCases(a: seq<string>, a': seq<string>, dx: seq<string>, w: seq<string>,
                                     w': seq<string>, y: string, inX: bool, inY: bool)
    requires a == dx + w
    requires a' == if inX || inY then a else a + [y]
    requires w' == if inX || inY then w else w + [y]
    ensures a' == dx + w'
  {
    if !(inX || inY) {
      Text.AppendAssoc(dx, w, [y]);
    }
  }

  lemma {:induction false} DedupOfDistinct(ks: seq<string>)
    requires forall i, j :: 0 <= i < j < |ks| ==> ks[i] != ks[j]
    ensures Dedup(ks) == ks
  {
    if |ks| > 0 {
      var ks', k := ks[..|ks| - 1], ks[|ks| - 1];
      DedupOfDistinct(ks');
      assert k !in ks';
      assert ks == ks' + [k];
    }
  }

  lemma {:induction false} WithoutOfDistinct(ks: seq<string>, excluded: seq<string>)
    requires forall i, j :: 0 <= i < j < |ks| ==> ks[i] != ks[j]
    ensures forall i, j :: 0 <= i < j < |Without(ks, excluded)| ==> Without(ks, excluded)[i] != Without(ks, excluded)[j]
  {
    if |ks| > 0 {
      var ks', k := ks[..|ks| - 1], ks[|ks| - 1];
      WithoutOfDistinct(ks', excluded);
      assert k !in ks';
    }
  }

  /** The keys are visited in this order: every key of `obj1`, in its own
      order, then the keys found only in `obj2`, in `obj2`'s order. */
  lemma {:induction false} KeyOrder(obj1: Fields, obj2: Fields)
    requires WellFormed(obj1) && WellFormed(obj2)
    ensures AllKeys(obj1, obj2) == Keys(obj1) + Without(Keys(obj2), Keys(obj1))
  {
    DedupAppend(Keys(obj1), Keys(obj2));
    DedupOfDistinct(Keys(obj1));
    DedupOfDistinct(Keys(obj2));
  }

  // ---------------------------------------------------------------------
  // Comparing an object with itself

  lemma {:induction false} CompareKeysSelf(obj: Fields, keys: seq<string>, path: string)
    ensures CompareKeys(obj, obj, keys, path) == []
  {
    if |keys| > 0 {
      CompareKeysSelf(obj, keys[..|keys| - 1], path);
    }
  }

  /** An object compared with itself has no differences. */
  lemma {:induction false} CompareSelf(obj: Fields, path: string)
    ensures Compare(obj, obj, path) == []
  {
    CompareKeysSelf(obj, AllKeys(obj, obj), path);
  }

  // ---------------------------------------------------------------------
  // Swapping the arguments

  function SwapKind(kind: ChangeType): ChangeType {
    match kind
    case Added => Removed
    case Removed => Added
    case Modified => Modified
  }

  /** The record seen from the other side: old and new values exchanged,
      `added` and `removed` exchanged. */
  function Swapped(d: Difference): Difference {
    Difference(d.path, d.newValue, d.oldValue, SwapKind(d.kind))
  }

  /** Every record of a loop comes from one of its keys. */
  lemma {:induction false} CompareKeysMember(obj1: Fields, obj2: Fields, keys: seq<string>, path: string, d: Difference)
    requires d in CompareKeys(obj1, obj2, keys, path)
    ensures exists k :: k in keys && d in CompareKey(obj1, obj2, k, path)
  {
    var last := keys[|keys| - 1];
    if d in CompareKey(obj1, obj2, last, path) {
      assert last in keys;
    } else {
      CompareKeysMember(obj1, obj2, keys[..|keys| - 1], path, d);
      var k :| k in keys[..|keys| - 1] && d in CompareKey(obj1, obj2, k, path);
      assert k in keys;
    }
  }

  /** Every record of one key appears in the loop over any keys holding it. */
  lemma {:induction false} CompareKeysIncludes(obj1: Fields, obj2: Fields, keys: seq<string>, path: string, k: string, d: Difference)
    requires k in keys && d in CompareKey(obj1, obj2, k, path)
    ensures d in CompareKeys(obj1, obj2, keys, path)
  {
    if keys[|keys| - 1] != k {
      assert k in keys[..|keys| - 1];
      CompareKeysIncludes(obj1, obj2, keys[..|keys| - 1], path, k, d);
    }
  }

  lemma {:induction false} SwapCompare(obj1: Fields, obj2: Fields, path: string, d: Difference)
    requires d in Compare(obj1, obj2, path)
    ensures Swapped(d) in Compare(obj2, obj1, path)
    decreases Obj(obj1), 1
  {
    CompareKeysMember(obj1, obj2, AllKeys(obj1, obj2), path, d);
    var k :| k in AllKeys(obj1, obj2) && d in CompareKey(obj1, obj2, k, path);
    SwapCompareKey(obj1, obj2, k, path, d);
    assert k in AllKeys(obj2, obj1);
    CompareKeysIncludes(obj2, obj1, AllKeys(obj2, obj1), path, k, Swapped(d));
  }

  lemma {:induction false} SwapCompareKey(obj1: Fields, obj2: Fields, key: string, path: string, d: Difference)
    requires d in CompareKey(obj1, obj2, key, path)
    ensures Swapped(d) in CompareKey(obj2, obj1, key, path)
    decreases Obj(obj1), 0
  {
    var val1, val2 := Get(obj1, key), Get(obj2, key);
    if BothObjects(val1, val2) {
      var i := IndexOfKey(obj1, key);
      assert val1.value == obj1[i].1 && obj1[i] in obj1;
      SwapCompare(obj1[i].1.fields, val2.value.fields, ChildPath(path, key), d);
    }
  }

  /** Comparing the other way round reports the same changes, each seen
      from the other side. */
  lemma {:induction false} CompareAntisymmetric(obj1: Fields, obj2: Fields, path: string, d: Difference)
    ensures d in Compare(obj1, obj2, path) <==> Swapped(d) in Compare(obj2, obj1, path)
  {
    assert Swapped(Swapped(d)) == d;
    if d in Compare(obj1, obj2, path) {
      SwapCompare(obj1, obj2, path, d);
    }
    if Swapped(d) in Compare(obj2, obj1, path) {
      SwapCompare(obj2, obj1, path, Swapped(d));
    }
  }

  // ---------------------------------------------------------------------
  // No differences exactly between equivalent objects

  /** Two objects are equivalent when they have the same keys and
      equivalent values under each, whatever the order of the keys. */
  predicate Equivalent(obj1: Fields, obj2: Fields)
    decreases Obj(obj1), 1
  {
    && (forall k | k in Keys(obj1) :: k in Keys(obj2))
    && (forall k | k in Keys(obj2) :: k in Keys(obj1))
    && (forall i | 0 <= i < |obj1| ::
          Get(obj2, obj1[i].0).Some? && JsonEquivalent(obj1[i].1, Get(obj2, obj1[i].0).value))
  }

  predicate JsonEquivalent(a: Json, b: Json)
    decreases a, 2
  {
    if a.Obj? && b.Obj? then Equivalent(a.fields, b.fields) else a == b
  }

  /** In a well-formed object each key finds its own property. */
  lemma {:induction false} GetAt(obj: Fields, i: nat)
    requires forall i, j :: 0 <= i < j < |obj| ==> obj[i].0 != obj[j].0
    requires i < |obj|
    ensures Get(obj, obj[i].0) == Some(obj[i].1)
  {
    var key := obj[i].0;
    FirstIndexOfDistinct(obj, i, IndexOfKey(obj, key), key);
  }

  /** Among distinct keys, the first index holding `obj[i].0` is `i`. */
  lemma {:induction false} FirstIndexOfDistinct(obj: Fields, i: nat, j: nat, key: string)
    requires forall i, j :: 0 <= i < j < |obj| ==> obj[i].0 != obj[j].0
    requires i < |obj| && key == obj[i].0 && j <= |obj|
    requires j < |obj| ==> obj[j].0 == key
    requires forall k :: 0 <= k < j ==> obj[k].0 != key
    ensures j == i
  {
    assert j <= i;
  }

  lemma {:induction false} EquivalentRefl(obj: Fields)
    requires WellFormed(obj)
    ensures Equivalent(obj, obj)
    decreases Obj(obj)
  {
    forall i | 0 <= i < |obj|
      ensures Get(obj, obj[i].0) == Some(obj[i].1) && JsonEquivalent(obj[i].1, obj[i].1)
    {
      GetAt(obj, i);
      if obj[i].1.Obj? {
        assert obj[i] in obj;
        EquivalentRefl(obj[i].1.fields);
      }
    }
  }

  /** The values under `key` are both present and equivalent. */
  predicate KeyAgrees(obj1: Fields, obj2: Fields, key: string) {
    Get(obj1, key).Some? && Get(obj2, key).Some? && JsonEquivalent(Get(obj1, key).value, Get(obj2, key).value)
  }

  lemma {:induction false} CompareKeysEmpty(obj1: Fields, obj2: Fields, keys: seq<string>, path: string)
    ensures CompareKeys(obj1, obj2, keys, path) == [] <==>
            forall k | k in keys :: CompareKey(obj1, obj2, k, path) == []
  {
    if |keys| > 0 {
      var keys', last := keys[..|keys| - 1], keys[|keys| - 1];
      CompareKeysEmpty(obj1, obj2, keys', path);
      assert forall k :: k in keys <==> k in keys' || k == last by {
        assert keys == keys' + [last];
      }
      var a, b := CompareKeys(obj1, obj2, keys', path), CompareKey(obj1, obj2, last, path);
      assert CompareKeys(obj1, obj2, keys, path) == a + b;
      assert a + b == [] <==> a == [] && b == [] by {
        assert |a + b| == |a| + |b|;
      }
      if CompareKeys(obj1, obj2, keys, path) == [] {
        forall k | k in keys
          ensures CompareKey(obj1, obj2, k, path) == []
        {
          if k != last {
            assert k in keys';
          }
        }
      }
      if forall k | k in keys :: CompareKey(obj1, obj2, k, path) == [] {
        assert b == [];
        forall k | k in keys'
          ensures CompareKey(obj1, obj2, k, path) == []
        {
          assert k in keys;
        }
      }
    }
  }

  /** Agreement under every key visited is equivalence. */
  lemma {:induction false} AllAgreeIffEquivalent(obj1: Fields, obj2: Fields)
    requires WellFormed(obj1)
    ensures (forall k | k in AllKeys(obj1, obj2) :: KeyAgrees(obj1, obj2, k)) <==> Equivalent(obj1, obj2)
  {
    var all := AllKeys(obj1, obj2);
    assert forall k :: k in all <==> k in Keys(obj1) || k in Keys(obj2);
    if forall k | k in all :: KeyAgrees(obj1, obj2, k) {
      forall i | 0 <= i < |obj1|
        ensures Get(obj2, obj1[i].0).Some? && JsonEquivalent(obj1[i].1, Get(obj2, obj1[i].0).value)
      {
        GetAt(obj1, i);
        assert obj1[i].0 in Keys(obj1);
        assert KeyAgrees(obj1, obj2, obj1[i].0);
      }
      forall k | k in Keys(obj2)
        ensures k in Keys(obj1)
      {
        assert KeyAgrees(obj1, obj2, k);
      }
    }
    if Equivalent(obj1, obj2) {
      forall k | k in all
        ensures KeyAgrees(obj1, obj2, k)
      {
        assert k in Keys(obj1);
        var i := IndexOfKey(obj1, k);
        assert Get(obj1, k) == Some(obj1[i].1);
      }
    }
  }

  /** `compareJSONObjects` reports no difference exactly when the two
      objects are equivalent: same keys, equivalent values, in any order. */
  lemma {:induction false} CompareEmptyIffEquivalent(obj1: Fields, obj2: Fields, path: string)
    requires WellFormed(obj1)
    ensures Compare(obj1, obj2, path) == [] <==> Equivalent(obj1, obj2)
    decreases Obj(obj1), 1
  {
    var all := AllKeys(obj1, obj2);
    CompareKeysEmpty(obj1, obj2, all, path);
    forall k | k in all
      ensures CompareKey(obj1, obj2, k, path) == [] <==> KeyAgrees(obj1, obj2, k)
    {
      KeyEmptyIffAgrees(obj1, obj2, k, path);
    }
    AllAgreeIffEquivalent(obj1, obj2);
  }

  lemma {:induction false} KeyEmptyIffAgrees(obj1: Fields, obj2: Fields, key: string, path: string)
    requires WellFormed(obj1)
    requires key in Keys(obj1) || key in Keys(obj2)
    ensures CompareKey(obj1, obj2, key, path) == [] <==> KeyAgrees(obj1, obj2, key)
    decreases Obj(obj1), 0
  {
    var val1, val2 := Get(obj1, key), Get(obj2, key);
    var i := IndexOfKey(obj1, key);
    if val1 == val2 {
      if val1.value.Obj? {
        assert val1.value == obj1[i].1 && obj1[i] in obj1;
        EquivalentRefl(val1.value.fields);
      }
    } else if BothObjects(val1, val2) {
      assert val1.value == obj1[i].1 && obj1[i] in obj1;
      CompareEmptyIffEquivalent(obj1[i].1.fields, val2.value.fields, ChildPath(path, key));
    }
  }

  // ---------------------------------------------------------------------
  // An example

  lemma {:induction false} ExampleWithout()
    ensures Without(["a", "b", "c"], ["a", "b"]) == ["c"]
  {
    var ks: seq<string> := ["a", "b", "c"];
    assert ks[..2] == ["a", "b"] && ks[..2][..1] == ["a"] && ks[..2][..1][..0] == [];
    assert Without(ks[..1], ["a", "b"]) == [];
    assert Without(ks[..2], ["a", "b"]) == [];
  }

  lemma {:induction false} ExampleKeys(obj1: Fields, obj2: Fields)
    requires obj1 == [("a", Num(1)), ("b", Num(2))]
    requires obj2 == [("a", Num(1)), ("b", Num(3)), ("c", Num(4))]
    ensures AllKeys(obj1, obj2) == ["a", "b", "c"]
  {
    assert Keys(obj1) == ["a", "b"];
    assert Keys(obj2) == ["a", "b", "c"];
    assert WellFormed(obj1) && WellFormed(obj2);
    KeyOrder(obj1, obj2);
    ExampleWithout();
  }

  /** `{a: 1, b: 2}` against `{a: 1, b: 3, c: 4}`: `b` was modified and
      `c` added, in that order; `a` is not reported. */
  lemma {:induction false} CompareExample()
    ensures Compare([("a", Num(1)), ("b", Num(2))], [("a", Num(1)), ("b", Num(3)), ("c", Num(4))], "")
         == [Difference("b", Some(Num(2)), Some(Num(3)), Modified), Difference("c", None, Some(Num(4)), Added)]
  {
    var obj1: Fields := [("a", Num(1)), ("b", Num(2))];
    var obj2: Fields := [("a", Num(1)), ("b", Num(3)), ("c", Num(4))];
    ExampleKeys(obj1, obj2);
    ExampleKeyRecords(obj1, obj2);
    var db, dc := Difference("b", Some(Num(2)), Some(Num(3)), Modified), Difference("c", None, Some(Num(4)), Added);
    var keys := AllKeys(obj1, obj2);
    assert keys[0] == "a" && keys[1] == "b" && keys[2] == "c";
    CompareThreeKeys(obj1, obj2, keys, "", [], [db], [dc]);
    assert [] + [db] + [dc] == [db, dc];
  }

  /** The loop over three keys, from the records of each. */
  lemma {:induction false} CompareThreeKeys(obj1: Fields, obj2: Fields, keys: seq<string>, path: string,
                                            r0: seq<Difference>, r1: seq<Difference>, r2: seq<Difference>)
    requires |keys| == 3
    requires CompareKey(obj1, obj2, keys[0], path) == r0
    requires CompareKey(obj1, obj2, keys[1], path) == r1
    requires CompareKey(obj1, obj2, keys[2], path) == r2
    ensures CompareKeys(obj1, obj2, keys, path) == r0 + r1 + r2
  {
    var k2, k1 := keys[..2], keys[..2][..1];
    assert k2[1] == keys[1] && k1[0] == keys[0] && k1[..0] == [];
    CompareKeysSnoc(obj1, obj2, k1, path, [], r0);
    CompareKeysSnoc(obj1, obj2, k2, path, r0, r1);
    CompareKeysSnoc(obj1, obj2, keys, path, r0 + r1, r2);
  }

  /** One more key adds its own records after those of the keys before it. */
  lemma {:induction false} CompareKeysSnoc(obj1: Fields, obj2: Fields, keys: seq<string>, path: string,
                                           front: seq<Difference>, last: seq<Difference>)
    requires |keys| > 0
    requires CompareKeys(obj1, obj2, keys[..|keys| - 1], path) == front
    requires CompareKey(obj1, obj2, keys[|keys| - 1], path) == last
    ensures CompareKeys(obj1, obj2, keys, path) == front + last
  {
  }

  lemma {:induction false} ExampleKeyRecords(obj1: Fields, obj2: Fields)
    requires obj1 == [("a", Num(1)), ("b", Num(2))]
    requires obj2 == [("a", Num(1)), ("b", Num(3)), ("c", Num(4))]
    ensures CompareKey(obj1, obj2, "a", "") == []
    ensures CompareKey(obj1, obj2, "b", "") == [Difference("b", Some(Num(2)), Some(Num(3)), Modified)]
    ensures CompareKey(obj1, obj2, "c", "") == [Difference("c", None, Some(Num(4)), Added)]
  {
    assert obj1[1..] == [("b", Num(2))] && obj1[1..][1..] == [];
    assert obj2[1..] == [("b", Num(3)), ("c", Num(4))] && obj2[1..][1..] == [("c", Num(4))];
    assert IndexOfKey(obj1, "a") == 0 && IndexOfKey(obj2, "a") == 0;
    assert IndexOfKey(obj1, "b") == 1 && IndexOfKey(obj2, "b") == 1;
    assert IndexOfKey(obj1[1..][1..], "c") == 0 && IndexOfKey(obj2[1..][1..], "c") == 0;
    assert IndexOfKey(obj1[1..], "c") == 1 && IndexOfKey(obj2[1..], "c") == 1;
    assert IndexOfKey(obj1, "c") == 2 && IndexOfKey(obj2, "c") == 2;
  }
}
