/**
 The slice of PHP's value model the middleware and the setup script touch:
 scalars, `null`, and ordered arrays (a sequence of key/value entries).
 */
module Php {
  import opened Wrappers
  import Seqs

  /** A PHP value. Arrays keep their entries in insertion order. */
  datatype Value =
    | Null
    | Bool(b: bool)
    | Int(i: int)
    | Str(s: string)
    | Arr(entries: seq<(string, Value)>)

  /** The entries of a PHP array, in insertion order. */
  type Entries = seq<(string, Value)>

  /** `array_keys`. */
  function Keys(a: Entries): (ks: seq<string>)
    ensures |ks| == |a|
    ensures forall i :: 0 <= i < |a| ==> ks[i] == a[i].0
  {
    seq(|a|, i requires 0 <= i < |a| => a[i].0)
  }

  /** No key is repeated, as in every real PHP array. */
  predicate DistinctKeys(a: Entries) {
    forall i, j :: 0 <= i < j < |a| ==> a[i].0 != a[j].0
  }

  /** `$a[$k]` when the key exists; `None` when reading it would be an undefined-key access. */
  function Get(a: Entries, k: string): (r: Option<Value>)
    ensures r.None? <==> k !in Keys(a)
    ensures r.Some? ==> (k, r.value) in a
  {
    if a == [] then None
    else if a[0].0 == k then Some(a[0].1)
    else
      assert Keys(a) == [a[0].0] + Keys(a[1..]);
      Get(a[1..], k)
  }

  /** `is_array`. */
  predicate IsArray(v: Value) {
    v.Arr?
  }

  /** PHP's `empty` on a string: the empty string and `"0"`. */
  predicate EmptyString(s: string) {
    s == "" || s == "0"
  }

  /** PHP's `empty` on a value, equivalently "converts to `false`". */
  predicate Empty(v: Value) {
    match v
    case Null => true
    case Bool(b) => !b
    case Int(i) => i == 0
    case Str(s) => EmptyString(s)
    case Arr(e) => e == []
  }

  // ---------------------------------------------------------------------------
  // array_filter($a, $f, ARRAY_FILTER_USE_KEY)

  /** `array_filter` on keys: keeps the entries whose key satisfies `keep`, keys and order intact. */
  function FilterByKey(a: Entries, keep: string -> bool): (r: Entries)
    ensures |r| <= |a|
  {
    Seqs.Filter(a, (e: (string, Value)) => keep(e.0))
  }

  /** The keys that survive are exactly the input keys that satisfy the predicate. */
  lemma FilterByKeyKeys(a: Entries, keep: string -> bool, k: string)
    ensures k in Keys(FilterByKey(a, keep)) <==> k in Keys(a) && keep(k)
  {
    var r := FilterByKey(a, keep);
    if k in Keys(r) {
      var i :| 0 <= i < |r| && Keys(r)[i] == k;
      assert r[i] in a;
      var j :| 0 <= j < |a| && a[j] == r[i];
      assert Keys(a)[j] == k;
    }
    if k in Keys(a) && keep(k) {
      var j :| 0 <= j < |a| && Keys(a)[j] == k;
      assert a[j] in r;
      var i :| 0 <= i < |r| && r[i] == a[j];
      assert Keys(r)[i] == k;
    }
  }

  /** Reading a key from the filtered array gives what the original holds, or nothing if the key was dropped. */
  lemma {:induction false} FilterByKeyGet(a: Entries, keep: string -> bool, k: string)
    ensures Get(FilterByKey(a, keep), k) == if keep(k) then Get(a, k) else None
  {
    if a != [] {
      FilterByKeyGet(a[1..], keep, k);
      var rest := FilterByKey(a[1..], keep);
      if keep(a[0].0) {
        assert FilterByKey(a, keep) == [a[0]] + rest;
        assert ([a[0]] + rest)[1..] == rest;
      } else {
        assert FilterByKey(a, keep) == rest;
      }
    }
  }

  /** Filtering cannot introduce a repeated key. */
  lemma {:induction false} FilterByKeyDistinct(a: Entries, keep: string -> bool)
    requires DistinctKeys(a)
    ensures DistinctKeys(FilterByKey(a, keep))
  {
    if a != [] {
      FilterByKeyDistinct(a[1..], keep);
      var rest := FilterByKey(a[1..], keep);
      if keep(a[0].0) {
        assert FilterByKey(a, keep) == [a[0]] + rest;
        forall i | 0 <= i < |rest|
          ensures rest[i].0 != a[0].0
        {
          assert rest[i] in a[1..];
        }
      } else {
        assert FilterByKey(a, keep) == rest;
      }
    }
  }

  /** Entries are kept in their original relative order: the filter of a concatenation is the concatenation of the filters. */
  lemma FilterByKeyAppend(a: Entries, b: Entries, keep: string -> bool)
    ensures FilterByKey(a + b, keep) == FilterByKey(a, keep) + FilterByKey(b, keep)
  {
    Seqs.FilterAppend(a, b, (e: (string, Value)) => keep(e.0));
  }

  /** A key test that accepts every key of the array returns the array unchanged. */
  lemma FilterByKeyKeepsAll(a: Entries, keep: string -> bool)
    requires forall i :: 0 <= i < |a| ==> keep(a[i].0)
    ensures FilterByKey(a, keep) == a
  {
    Seqs.FilterKeepsAll(a, (e: (string, Value)) => keep(e.0));
  }
}
