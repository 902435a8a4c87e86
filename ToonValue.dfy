/**
 * The values the TOON codec works on: JSON-like data with insertion-ordered objects.
 * An object is a sequence of fields with Python `dict` semantics: assigning to a present
 * key replaces its value in place, assigning to a new key appends it.
 */
module ToonValue {
  import opened Wrappers

  /** A dict key: a string, or Python's `None` (decode keys an anonymous header this way). */
  datatype Key = NoneKey | Name(name: string)

  datatype Value =
    | Null
    | Bool(b: bool)
    | Int(i: int)
      /** A Python float, held as the decimal text it was read from. */
    | Float(text: string)
    | Str(s: string)
    | List(items: seq<Value>)
    | Object(fields: seq<Field>)

  datatype Field = Field(key: Key, val: Value)

  function Keys(fields: seq<Field>): (ks: seq<Key>)
    ensures |ks| == |fields| && forall i :: 0 <= i < |fields| ==> ks[i] == fields[i].key
  {
    seq(|fields|, i requires 0 <= i < |fields| => fields[i].key)
  }

  predicate DistinctKeys(fields: seq<Field>) {
    forall i, j :: 0 <= i < j < |fields| ==> fields[i].key != fields[j].key
  }

  /** Index of `k` among the keys, if present. */
  function IndexOf(fields: seq<Field>, k: Key): (r: Option<nat>)
    ensures r.Some? ==> r.value < |fields| && fields[r.value].key == k
    ensures r.Some? ==> forall j :: 0 <= j < r.value ==> fields[j].key != k
    ensures r.None? <==> k !in Keys(fields)
  {
    if fields == [] then None
    else if fields[0].key == k then Some(0)
    else match IndexOf(fields[1..], k)
      case None => None
      case Some(j) => Some(j + 1)
  }

  /** `d[k]`, when `k` is present */
  function Lookup(fields: seq<Field>, k: Key): Option<Value> {
    match IndexOf(fields, k)
    case None => None
    case Some(j) => Some(fields[j].val)
  }

  /** `d.get(k)`: a missing key reads as `None`. */
  function Get(fields: seq<Field>, k: Key): Value {
    match Lookup(fields, k)
    case None => Null
    case Some(v) => v
  }

  /** `d[k] = v` */
  function Put(fields: seq<Field>, k: Key, v: Value): (r: seq<Field>)
    ensures Keys(r) == if k in Keys(fields) then Keys(fields) else Keys(fields) + [k]
    ensures DistinctKeys(fields) ==> DistinctKeys(r)
    ensures Lookup(r, k) == Some(v)
  {
    match IndexOf(fields, k)
    case None =>
      assert IndexOf(fields + [Field(k, v)], k) == Some(|fields|) by {
        IndexOfAppend(fields, Field(k, v));
      }
      fields + [Field(k, v)]
    case Some(j) =>
      var r := fields[j := Field(k, v)];
      assert Keys(r) == Keys(fields);
      assert IndexOf(r, k) == Some(j) by {
        IndexOfSameKeys(fields, r, k);
      }
      r
  }

  lemma {:induction false} IndexOfAppend(fields: seq<Field>, f: Field)
    requires f.key !in Keys(fields)
    ensures IndexOf(fields + [f], f.key) == Some(|fields|)
  {
    if fields != [] {
      assert (fields + [f])[1..] == fields[1..] + [f];
      assert Keys(fields) == [fields[0].key] + Keys(fields[1..]);
      IndexOfAppend(fields[1..], f);
    }
  }

  lemma {:induction false} IndexOfSameKeys(a: seq<Field>, b: seq<Field>, k: Key)
    requires Keys(a) == Keys(b)
    ensures IndexOf(a, k) == IndexOf(b, k)
  {
    if a != [] {
      assert Keys(a[1..]) == Keys(a)[1..] && Keys(b[1..]) == Keys(b)[1..];
      IndexOfSameKeys(a[1..], b[1..], k);
    }
  }

  /** Appending an entry with another key leaves every lookup as it was. */
  lemma {:induction false} IndexOfExtend(fields: seq<Field>, extra: Field, k: Key)
    requires extra.key != k
    ensures IndexOf(fields + [extra], k) == IndexOf(fields, k)
  {
    if fields != [] {
      assert (fields + [extra])[1..] == fields[1..] + [extra];
      IndexOfExtend(fields[1..], extra, k);
    }
  }

  /** `d[k] = v` leaves every other key's value alone. */
  lemma PutOther(fields: seq<Field>, k: Key, v: Value, other: Key)
    requires other != k
    ensures Lookup(Put(fields, k, v), other) == Lookup(fields, other)
  {
    match IndexOf(fields, k)
    case None =>
      IndexOfExtend(fields, Field(k, v), other);
    case Some(j) =>
      var r := fields[j := Field(k, v)];
      assert Keys(r) == Keys(fields);
      IndexOfSameKeys(fields, r, other);
  }

  /** In a dict with distinct keys, each entry is what its key looks up. */
  lemma {:induction false} LookupAt(fields: seq<Field>, j: nat)
    requires DistinctKeys(fields) && j < |fields|
    ensures Lookup(fields, fields[j].key) == Some(fields[j].val)
    ensures Get(fields, fields[j].key) == fields[j].val
  {
    var r := IndexOf(fields, fields[j].key);
    assert r.Some?;
  }

  /** `dict(pairs)`: later pairs overwrite earlier ones with the same key. */
  function FromPairs(pairs: seq<Field>): (r: seq<Field>)
    ensures DistinctKeys(r)
    ensures |r| <= |pairs|
    ensures forall k :: k in Keys(r) <==> k in Keys(pairs)
  {
    if pairs == [] then []
    else
      var prefix := FromPairs(pairs[..|pairs| - 1]);
      var last := pairs[|pairs| - 1];
      assert Keys(pairs) == Keys(pairs[..|pairs| - 1]) + [last.key];
      Put(prefix, last.key, last.val)
  }

  /** Building a dict from pairs whose keys are already distinct keeps them as they are. */
  lemma {:induction false} FromPairsDistinct(pairs: seq<Field>)
    requires DistinctKeys(pairs)
    ensures FromPairs(pairs) == pairs
  {
    if pairs != [] {
      var init := pairs[..|pairs| - 1];
      FromPairsDistinct(init);
      var last := pairs[|pairs| - 1];
      assert last.key !in Keys(init);
      assert init + [last] == pairs;
    }
  }

  /** `dict(pairs[..i + 1])` is `dict(pairs[..i])` with one more assignment. */
  lemma FromPairsStep(pairs: seq<Field>, i: nat)
    requires i < |pairs|
    ensures FromPairs(pairs[..i + 1]) == Put(FromPairs(pairs[..i]), pairs[i].key, pairs[i].val)
  {
    assert pairs[..i + 1][..i] == pairs[..i];
  }

  /** In `dict(pairs)` a key holds the value of its last pair. */
  lemma {:induction false} FromPairsLast(pairs: seq<Field>, i: nat)
    requires i < |pairs|
    requires forall j :: i < j < |pairs| ==> pairs[j].key != pairs[i].key
    ensures Lookup(FromPairs(pairs), pairs[i].key) == Some(pairs[i].val)
  {
    var init := pairs[..|pairs| - 1];
    var last := pairs[|pairs| - 1];
    if i < |pairs| - 1 {
      FromPairsLast(init, i);
      PutOther(FromPairs(init), last.key, last.val, pairs[i].key);
    }
  }

  /** `zip(keys, vals)`: as many pairs as the shorter of the two. */
  function Zip(keys: seq<string>, vals: seq<Value>): (r: seq<Field>)
    ensures |r| == if |keys| < |vals| then |keys| else |vals|
    ensures forall i :: 0 <= i < |r| ==> r[i] == Field(Name(keys[i]), vals[i])
  {
    var n := if |keys| < |vals| then |keys| else |vals|;
    seq(n, i requires 0 <= i < n => Field(Name(keys[i]), vals[i]))
  }

  /** Every object inside `v` has distinct keys, as a Python `dict` does. */
  predicate WellFormed(v: Value) {
    match v
    case List(items) => forall i :: 0 <= i < |items| ==> WellFormed(items[i])
    case Object(fields) =>
      DistinctKeys(fields) && forall i :: 0 <= i < |fields| ==> WellFormed(fields[i].val)
    case _ => true
  }
}
