/**
  `load_dataset_yaml`: a YAML manifest mapping names to prompts becomes three
  parallel columns, `repeat` rows per sampled name, identified as
  `{name}-{j}` for `j` in `range(repeat)`.
 */
module DatasetYaml {
  import opened Text
  import opened Sorting
  import opened Sampling

  /** The dict `ret` of three lists that the loader returns. */
  datatype Columns = Columns(filename: seq<string>, prompt: seq<string>, metaPath: seq<string>) {
    function Append(other: Columns): Columns {
      Columns(filename + other.filename, prompt + other.prompt, metaPath + other.metaPath)
    }
  }

  /** `len(range(repeat))`. */
  function RangeLength(repeat: int): nat {
    if repeat > 0 then repeat else 0
  }

  /** The first `count` rows the inner loop appends for one name. */
  function Block(name: string, prompt: string, metaPath: string, count: nat): Columns {
    Columns(
      seq(count, j requires 0 <= j < count => Suffixed(name, j)),
      seq(count, _ => prompt),
      seq(count, _ => metaPath))
  }

  /** The columns for `names`, each name contributing one full block, in order. */
  function Expand(meta: Manifest<string>, names: seq<string>, metaPath: string, repeat: int): (c: Columns)
    requires forall x :: x in names ==> x in Keys(meta)
    ensures |c.filename| == |c.prompt| == |c.metaPath|
    decreases |names|
  {
    if names == [] then Columns([], [], [])
    else
      var last := names[|names| - 1];
      Expand(meta, names[..|names| - 1], metaPath, repeat)
        .Append(Block(last, Lookup(meta, last), metaPath, RangeLength(repeat)))
  }

  /** Position of repetition `j` of the `i`-th name in the output columns. */
  function Slot(i: nat, j: nat, repeat: nat): nat {
    i * repeat + j
  }

  lemma SlotBelow(i: nat, j: nat, repeat: nat, n: nat)
    requires i < n && j < repeat
    ensures Slot(i, j, repeat) < n * repeat
  {
    assert (i + 1) * repeat <= n * repeat;
  }

  /**
    The closed form of Expand: the columns have `|names| * max(repeat, 0)`
    rows; repetition `j` of name `i` sits at `i * repeat + j`, with identifier
    `{name}-{j}` and the name's prompt; every row records the manifest path.
   */
  lemma {:induction false} ExpandAt(meta: Manifest<string>, names: seq<string>, metaPath: string, repeat: int)
    requires forall x :: x in names ==> x in Keys(meta)
    ensures var c := Expand(meta, names, metaPath, repeat);
      && |c.filename| == |c.prompt| == |c.metaPath| == |names| * RangeLength(repeat)
      && (forall i, j :: 0 <= i < |names| && 0 <= j < repeat ==>
            Slot(i, j, repeat) < |c.filename|
            && c.filename[Slot(i, j, repeat)] == Suffixed(names[i], j)
            && c.prompt[Slot(i, j, repeat)] == Lookup(meta, names[i]))
      && (forall k :: 0 <= k < |c.metaPath| ==> c.metaPath[k] == metaPath)
    decreases |names|
  {
    if names != [] {
      var n := |names| - 1;
      var init := names[..n];
      var r := RangeLength(repeat);
      ExpandAt(meta, init, metaPath, repeat);
      var c0 := Expand(meta, init, metaPath, repeat);
      var c := Expand(meta, names, metaPath, repeat);
      assert |c.filename| == n * r + r == |names| * r;
      forall i, j | 0 <= i < |names| && 0 <= j < repeat
        ensures Slot(i, j, repeat) < |c.filename|
        ensures c.filename[Slot(i, j, repeat)] == Suffixed(names[i], j)
        ensures c.prompt[Slot(i, j, repeat)] == Lookup(meta, names[i])
      {
        if i < n {
          SlotBelow(i, j, repeat, n);
          assert init[i] == names[i];
        } else {
          assert Slot(i, j, repeat) == n * r + j;
        }
      }
    }
  }

  /** Every row position splits into a name index and a repetition number. */
  lemma SlotOf(k: nat, repeat: nat, n: nat) returns (i: nat, j: nat)
    requires k < n * repeat
    ensures i < n && j < repeat && Slot(i, j, repeat) == k
  {
    i, j := k / repeat, k % repeat;
  }

  /** With distinct names, every row of the expansion has its own identifier. */
  lemma ExpandDistinctFilenames(meta: Manifest<string>, names: seq<string>, metaPath: string, repeat: int)
    requires forall x :: x in names ==> x in Keys(meta)
    requires Distinct(names)
    ensures Distinct(Expand(meta, names, metaPath, repeat).filename)
  {
    var c := Expand(meta, names, metaPath, repeat);
    ExpandAt(meta, names, metaPath, repeat);
    var r := RangeLength(repeat);
    forall k1, k2 | 0 <= k1 < k2 < |c.filename| ensures c.filename[k1] != c.filename[k2] {
      var i1, j1 := SlotOf(k1, r, |names|);
      var i2, j2 := SlotOf(k2, r, |names|);
      SuffixedInjective(names[i1], j1, names[i2], j2);
    }
  }

  /**
    `load_dataset_yaml(meta_path, max_dataset_size, repeat)` over the parsed
    manifest `meta`; `shuffled` is what the seeded shuffle leaves.
   */
  method LoadDatasetYaml(metaPath: string, meta: Manifest<string>, shuffled: seq<string>,
                         maxDatasetSize: int, repeat: int) returns (ret: Columns)
    requires ValidManifest(meta) && IsShuffleOf(shuffled, Keys(meta))
    ensures ret == Expand(meta, SampleNames(Keys(meta), shuffled, maxDatasetSize), metaPath, repeat)
    ensures var names := SampleNames(Keys(meta), shuffled, maxDatasetSize);
      && |ret.filename| == |ret.prompt| == |ret.metaPath| == |names| * RangeLength(repeat)
      && (forall i, j :: 0 <= i < |names| && 0 <= j < repeat ==>
            Slot(i, j, repeat) < |ret.filename|
            && ret.filename[Slot(i, j, repeat)] == Suffixed(names[i], j)
            && ret.prompt[Slot(i, j, repeat)] == Lookup(meta, names[i]))
      && (forall k :: 0 <= k < |ret.metaPath| ==> ret.metaPath[k] == metaPath)
      && Distinct(ret.filename)
  {
    var names := SampleNames(Keys(meta), shuffled, maxDatasetSize);
    ret := Columns([], [], []);
    var idx := 0;  // counts appended rows; the loader never reads it
    for i := 0 to |names|
      invariant ret == Expand(meta, names[..i], metaPath, repeat)
      invariant idx == |ret.filename|
    {
      var name := names[i];
      var prompt := Lookup(meta, name);
      ghost var before := ret;
      for j := 0 to RangeLength(repeat)
        invariant ret == before.Append(Block(name, prompt, metaPath, j))
        invariant idx == |ret.filename|
      {
        assert Block(name, prompt, metaPath, j + 1)
            == Block(name, prompt, metaPath, j).Append(Columns([Suffixed(name, j)], [prompt], [metaPath]));
        ret := Columns(ret.filename + [Suffixed(name, j)], ret.prompt + [prompt], ret.metaPath + [metaPath]);
        idx := idx + 1;
      }
      assert names[..i + 1][..i] == names[..i];
    }
    assert names[..|names|] == names;
    ExpandAt(meta, names, metaPath, repeat);
    ExpandDistinctFilenames(meta, names, metaPath, repeat);
  }
}
