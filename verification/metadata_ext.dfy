/**
 Request metadata as tonic keeps it: an ordered multimap of ASCII headers,
 and `MetadataExt::safe_append`, the best-effort append used to stamp it.
 */
module MetadataExt {

  /** A header name and its value. */
  type Entry = (string, string)

  /** `tonic::metadata::MetadataMap`: entries in insertion order, keys may repeat. */
  type Metadata = seq<Entry>

  /** Every value stored under `key`, in insertion order (`MetadataMap::get_all`). */
  function ValuesOf(m: Metadata, key: string): (vs: seq<string>)
    ensures |vs| <= |m|
  {
    if m == [] then []
    else ValuesOf(m[..|m| - 1], key) + (if m[|m| - 1].0 == key then [m[|m| - 1].1] else [])
  }

  /** Looking up a concatenation looks up each part in turn. */
  lemma {:induction false} ValuesOfConcat(a: Metadata, b: Metadata, key: string)
    ensures ValuesOf(a + b, key) == ValuesOf(a, key) + ValuesOf(b, key)
    decreases |b|
  {
    if b == [] {
      assert a + b == a;
    } else {
      var b' := b[..|b| - 1];
      assert (a + b)[..|a + b| - 1] == a + b';
      ValuesOfConcat(a, b', key);
    }
  }

  /** Entries whose key is not `key` contribute nothing to the values under `key`. */
  lemma {:induction false} ValuesOfOtherKeys(m: Metadata, key: string)
    requires forall i :: 0 <= i < |m| ==> m[i].0 != key
    ensures ValuesOf(m, key) == []
    decreases |m|
  {
    if m != [] {
      ValuesOfOtherKeys(m[..|m| - 1], key);
    }
  }

  /** The outcome of `safe_append`: the map afterwards and the returned flag. */
  datatype Appended = Appended(metadata: Metadata, inserted: bool)

  /**
   `safe_append(key, value, err_message)`: append `(key, value)` when `value`
   parses as an ASCII metadata value (`encodable`), otherwise leave the map as
   it was and report `false`. The warning it logs is not modelled.
   */
  function SafeAppend(m: Metadata, key: string, value: string, encodable: string -> bool): (r: Appended)
    ensures r.inserted <==> encodable(value)
    ensures |r.metadata| == |m| + (if r.inserted then 1 else 0)
    ensures r.metadata[..|m|] == m
    ensures !r.inserted ==> r.metadata == m
    ensures ValuesOf(r.metadata, key) == ValuesOf(m, key) + (if r.inserted then [value] else [])
    ensures forall k :: k != key ==> ValuesOf(r.metadata, k) == ValuesOf(m, k)
  {
    if encodable(value) then
      var m' := m + [(key, value)];
      assert m'[..|m'| - 1] == m;
      Appended(m', true)
    else
      Appended(m, false)
  }

  /** Appending never overwrites: two appends under one key keep both values, in call order. */
  lemma AppendNeverOverwrites(m: Metadata, key: string, v1: string, v2: string, encodable: string -> bool)
    requires encodable(v1) && encodable(v2)
    ensures var once := SafeAppend(m, key, v1, encodable).metadata;
            ValuesOf(SafeAppend(once, key, v2, encodable).metadata, key) == ValuesOf(m, key) + [v1, v2]
  {
  }
}
