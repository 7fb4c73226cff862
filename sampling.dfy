/**
  The size-capped sampling both loaders share (identical code in
  `DCI._generate_examples` and `load_dataset_yaml`): with a positive cap,
  shuffle the manifest keys with a fixed seed, keep the first `cap`, and sort
  them; otherwise keep every key in manifest order.

  A parsed manifest is an insertion-ordered list of (key, value) pairs with
  distinct keys, as a Python dict is. The seeded shuffle is not reproduced:
  the list it leaves is a parameter, constrained only to be a rearrangement
  of the keys, so every property below holds whatever the shuffle did.
 */
module Sampling {
  import opened StringOrder
  import opened Sorting

  type Manifest<V> = seq<(string, V)>

  /** `list(meta.keys())`. */
  function Keys<V>(m: Manifest<V>): seq<string> {
    seq(|m|, i requires 0 <= i < |m| => m[i].0)
  }

  predicate ValidManifest<V>(m: Manifest<V>) {
    Distinct(Keys(m))
  }

  function IndexOf<V>(m: Manifest<V>, key: string): (i: nat)
    requires key in Keys(m)
    ensures i < |m| && m[i].0 == key
    decreases |m|
  {
    if m[0].0 == key then 0
    else
      assert Keys(m) == [m[0].0] + Keys(m[1..]);
      1 + IndexOf(m[1..], key)
  }

  /** `meta[key]`. */
  function Lookup<V>(m: Manifest<V>, key: string): V
    requires key in Keys(m)
  {
    m[IndexOf(m, key)].1
  }

  /** With distinct keys, looking up the key of an entry finds that entry's value. */
  lemma LookupAt<V>(m: Manifest<V>, i: nat)
    requires ValidManifest(m) && i < |m|
    ensures m[i].0 in Keys(m) && Lookup(m, m[i].0) == m[i].1
  {
    assert Keys(m)[i] == m[i].0;
    var k := IndexOf(m, m[i].0);
    assert Keys(m)[k] == Keys(m)[i];
  }

  /**
    What `random.Random(0).shuffle(names)` may leave in `names`. The length
    conjunct follows from the multiset one; it is stated so that slices of
    `shuffled` are well formed without a proof step.
   */
  predicate IsShuffleOf(shuffled: seq<string>, keys: seq<string>) {
    |shuffled| == |keys| && multiset(shuffled) == multiset(keys)
  }

  function Min(a: int, b: int): int {
    if a < b then a else b
  }

  /** Sorting the first `n` shuffled keys gives distinct keys in strictly increasing order. */
  lemma SortedPrefixFacts(keys: seq<string>, shuffled: seq<string>, n: nat)
    requires Distinct(keys) && IsShuffleOf(shuffled, keys) && n <= |shuffled|
    ensures var names := Sort(shuffled[..n]);
      && |names| == n
      && StrictlySorted(names)
      && Distinct(names)
      && forall x :: x in names ==> x in keys
  {
    var taken := shuffled[..n];
    var names := Sort(taken);
    DistinctRearrangement(keys, shuffled);
    assert Distinct(taken);
    DistinctRearrangement(taken, names);
    SortedDistinctIsStrict(names);
    assert |names| == |multiset(names)| == |taken|;
    forall x | x in names ensures x in keys {
      assert x in multiset(taken);
      assert x in shuffled;
      assert x in multiset(keys);
    }
  }

  /** The name list `names` once the sampling step has run. */
  function SampleNames(keys: seq<string>, shuffled: seq<string>, maxDatasetSize: int): (names: seq<string>)
    requires Distinct(keys) && IsShuffleOf(shuffled, keys)
    ensures maxDatasetSize <= 0 ==> names == keys
    ensures maxDatasetSize > 0 ==> |names| == Min(maxDatasetSize, |keys|)
    ensures maxDatasetSize > 0 ==> StrictlySorted(names)
    ensures maxDatasetSize > 0 ==> multiset(names) == multiset(shuffled[..|names|])
    ensures Distinct(names)
    ensures forall x :: x in names ==> x in keys
  {
    if maxDatasetSize > 0 then
      var n := Min(maxDatasetSize, |shuffled|);
      SortedPrefixFacts(keys, shuffled, n);
      Sort(shuffled[..n])
    else
      keys
  }

  /** With a cap covering the whole manifest, the shuffle has no effect: the result is the sorted key list. */
  lemma FullSampleIsSortedKeys(keys: seq<string>, shuffled: seq<string>, maxDatasetSize: int)
    requires Distinct(keys) && IsShuffleOf(shuffled, keys)
    requires maxDatasetSize > 0 && maxDatasetSize >= |keys|
    ensures SampleNames(keys, shuffled, maxDatasetSize) == Sort(keys)
  {
    var names := SampleNames(keys, shuffled, maxDatasetSize);
    assert shuffled[..|names|] == shuffled;
    SortedUnique(names, Sort(keys));
  }

  /**
    Given which keys the shuffle put first, the sampled list depends neither on
    their order nor on the manifest's own order.
   */
  lemma SampleDependsOnlyOnSelection(keys1: seq<string>, shuffled1: seq<string>,
                                     keys2: seq<string>, shuffled2: seq<string>, maxDatasetSize: int)
    requires Distinct(keys1) && IsShuffleOf(shuffled1, keys1)
    requires Distinct(keys2) && IsShuffleOf(shuffled2, keys2)
    requires maxDatasetSize > 0 && |keys1| == |keys2|
    requires var n := Min(maxDatasetSize, |keys1|);
      multiset(shuffled1[..n]) == multiset(shuffled2[..n])
    ensures SampleNames(keys1, shuffled1, maxDatasetSize) == SampleNames(keys2, shuffled2, maxDatasetSize)
  {
    var a := SampleNames(keys1, shuffled1, maxDatasetSize);
    var b := SampleNames(keys2, shuffled2, maxDatasetSize);
    SortedUnique(a, b);
  }

  /** Two manifests with the same keys in different orders give the same sample under a covering cap. */
  lemma FullSampleIgnoresManifestOrder(keys1: seq<string>, shuffled1: seq<string>,
                                       keys2: seq<string>, shuffled2: seq<string>, maxDatasetSize: int)
    requires Distinct(keys1) && IsShuffleOf(shuffled1, keys1)
    requires Distinct(keys2) && IsShuffleOf(shuffled2, keys2)
    requires multiset(keys1) == multiset(keys2)
    requires maxDatasetSize > 0 && maxDatasetSize >= |keys1|
    ensures SampleNames(keys1, shuffled1, maxDatasetSize) == SampleNames(keys2, shuffled2, maxDatasetSize)
  {
    assert |keys1| == |multiset(keys1)| == |keys2|;
    FullSampleIsSortedKeys(keys1, shuffled1, maxDatasetSize);
    FullSampleIsSortedKeys(keys2, shuffled2, maxDatasetSize);
    SortDependsOnlyOnElements(keys1, keys2);
  }
}
