/**
  `get_dataset`: resolve a dataset name to the YAML loader or to one of the
  named dataset scripts, then optionally keep one strided shard of the rows,
  and return the rows together with the provenance of that shard.
 */
module Dispatch {
  import opened Wrappers
  import opened Text
  import opened Sorting
  import opened Sampling
  import opened DatasetYaml

  datatype Error =
    | UnknownDatasetName(name: string)         // the ValueError of an unknown name
    | ChunkOutOfRange(chunkStart: int, chunkStep: int)  // the failing `assert 0 <= chunk_start < chunk_step`

  /** Where `get_dataset` loads a name from. */
  datatype Loader = YamlFile | DatasetScript(name: string)

  /** A row of the returned dataset: the YAML loader's three columns, or a row of a dataset script. */
  datatype Record<A> = PromptRecord(filename: string, prompt: string, metaPath: string) | ScriptRecord(row: A)

  /** `unchunk_size`, `chunk_start` and `chunk_step`, recorded beside the rows. */
  datatype Provenance = Provenance(unchunkSize: nat, chunkStart: int, chunkStep: int)

  datatype Handle<T> = Handle(rows: seq<T>, provenance: Provenance)

  /** The arguments `datasets.load_dataset(path, return_gt=..., **kwargs)` receives. */
  datatype LoadRequest = LoadRequest(
    path: string,
    returnGt: bool,
    configName: Option<string>,
    split: string,
    trustRemoteCode: bool,
    token: bool,
    maxDatasetSize: int)

  const KnownScripts: set<string> := {"COCO", "DCI", "MJHQ"}

  predicate IsYamlName(name: string) {
    EndsWith(name, ".yaml") || EndsWith(name, ".yml")
  }

  /** The name dispatch of `get_dataset`. */
  function Route(name: string): (r: Result<Loader, Error>)
    ensures r == Ok(YamlFile) <==> IsYamlName(name)
    ensures r.Ok? && r.value.DatasetScript? <==> !IsYamlName(name) && name in KnownScripts
    ensures r.Ok? && r.value.DatasetScript? ==> r.value.name == name
    ensures r.Err? <==> !IsYamlName(name) && name !in KnownScripts
    ensures r.Err? ==> r.error == UnknownDatasetName(name)
  {
    if IsYamlName(name) then Ok(YamlFile)
    else if name == "COCO" then Ok(DatasetScript(name))
    else if name == "DCI" then Ok(DatasetScript(name))
    else if name == "MJHQ" then Ok(DatasetScript(name))
    else Err(UnknownDatasetName(name))
  }

  /** Python's `range(start, stop, step)` for a positive step. */
  function PyRange(start: int, stop: int, step: int): seq<int>
    requires step > 0
    decreases stop - start
  {
    if start >= stop then [] else [start] + PyRange(start + step, stop, step)
  }

  /** `ceil((stop - start) / step)` rows, none when `start >= stop`. */
  function StrideCount(start: int, stop: int, step: int): nat
    requires step > 0
  {
    if start >= stop then 0 else (stop - start + step - 1) / step
  }

  lemma {:induction false} MulSign(d: int, step: int)
    requires step > 0
    ensures d >= 1 ==> d * step >= step
    ensures d <= -1 ==> d * step <= -step
    ensures d >= 0 ==> d * step >= 0
    decreases if d < 0 then -d else d
  {
    if d > 1 {
      MulSign(d - 1, step);
      assert d * step == (d - 1) * step + step;
    } else if d < -1 {
      MulSign(d + 1, step);
      assert d * step == (d + 1) * step - step;
    }
  }

  lemma MulMonotone(a: int, b: int, step: int)
    requires step > 0
    ensures a <= b ==> a * step <= b * step
  {
    MulSign(b - a, step);
    assert (b - a) * step == b * step - a * step;
  }

  lemma DivModUnique(x: int, step: int, q: int, m: int)
    requires step > 0 && 0 <= m < step && x == q * step + m
    ensures x / step == q && x % step == m
  {
    var q', m' := x / step, x % step;
    assert q' * step + m' == x;
    assert (q - q') * step == m' - m;
    MulSign(q - q', step);
  }

  /** The count is the least `c` with `start + c * step >= stop`. */
  lemma StrideCountBounds(start: int, stop: int, step: int)
    requires step > 0 && start < stop
    ensures var c := StrideCount(start, stop, step);
      c >= 1 && (c - 1) * step < stop - start <= c * step
  {
    var x := stop - start + step - 1;
    var c := x / step;
    assert c * step + x % step == x;
    assert (c - 1) * step == c * step - step;
    MulSign(c, step);
    MulSign(c - 1, step);
  }

  /** Shard position `i` exists exactly when input index `start + i * step` does. */
  lemma InStride(start: int, stop: int, step: int, i: nat)
    requires step > 0
    ensures i < StrideCount(start, stop, step) <==> start + i * step < stop
  {
    MulSign(i, step);
    if start < stop {
      StrideCountBounds(start, stop, step);
      var c := StrideCount(start, stop, step);
      MulMonotone(i, c - 1, step);
      MulMonotone(c, i, step);
    }
  }

  /** The recursive range agrees with the closed form: its length and its `i`-th element. */
  lemma {:induction false} PyRangeAt(start: int, stop: int, step: int)
    requires step > 0
    ensures |PyRange(start, stop, step)| == StrideCount(start, stop, step)
    ensures forall i :: 0 <= i < |PyRange(start, stop, step)| ==> PyRange(start, stop, step)[i] == start + i * step
    decreases stop - start
  {
    if start < stop {
      PyRangeAt(start + step, stop, step);
      var rest := PyRange(start + step, stop, step);
      var c := StrideCount(start, stop, step);
      StrideCountBounds(start, stop, step);
      if start + step < stop {
        StrideCountBounds(start + step, stop, step);
        var c' := StrideCount(start + step, stop, step);
        assert (c' - 1) * step < stop - start - step <= c' * step;
        assert c' * step < stop - start <= (c' + 1) * step;
        assert c == c' + 1 by {
          DivModUnique(stop - start + step - 1, step, c' + 1, stop - start - 1 - c' * step);
        }
      } else {
        DivModUnique(stop - start + step - 1, step, 1, stop - start - 1);
      }
      forall i | 0 <= i < |PyRange(start, stop, step)|
        ensures PyRange(start, stop, step)[i] == start + i * step
      {
        if i > 0 {
          assert PyRange(start, stop, step)[i] == rest[i - 1];
        }
      }
    }
  }

  /** Every index the range produces names a row at `start + i * step`. */
  lemma StrideInRange(start: int, n: int, step: int)
    requires 0 <= start && step > 0
    ensures |PyRange(start, n, step)| == StrideCount(start, n, step)
    ensures forall k :: 0 <= k < |PyRange(start, n, step)| ==>
      PyRange(start, n, step)[k] == start + k * step && 0 <= PyRange(start, n, step)[k] < n
  {
    PyRangeAt(start, n, step);
    forall k | 0 <= k < |PyRange(start, n, step)| ensures 0 <= PyRange(start, n, step)[k] < n {
      InStride(start, n, step, k);
      MulSign(k, step);
    }
  }

  /** `dataset.select(indices)`. */
  function Select<T>(rows: seq<T>, indices: seq<int>): seq<T>
    requires forall k :: 0 <= k < |indices| ==> 0 <= indices[k] < |rows|
  {
    seq(|indices|, k requires 0 <= k < |indices| => rows[indices[k]])
  }

  lemma SelectStride<T>(rows: seq<T>, start: nat, step: nat)
    requires step > 0
    requires forall k :: 0 <= k < |PyRange(start, |rows|, step)| ==>
      PyRange(start, |rows|, step)[k] == start + k * step && 0 <= PyRange(start, |rows|, step)[k] < |rows|
    ensures var shard := Select(rows, PyRange(start, |rows|, step));
      forall i :: 0 <= i < |shard| ==> StrideIndex(start, i, step) < |rows| && shard[i] == rows[StrideIndex(start, i, step)]
  {
    var indices := PyRange(start, |rows|, step);
    var shard := Select(rows, indices);
    forall i | 0 <= i < |shard|
      ensures StrideIndex(start, i, step) < |rows| && shard[i] == rows[StrideIndex(start, i, step)]
    {
      assert indices[i] == StrideIndex(start, i, step);
    }
  }

  /** The input position of row `i` of the shard starting at `start`. */
  function StrideIndex(start: nat, i: nat, step: nat): nat {
    start + i * step
  }

  /** `dataset.select(range(start, len(dataset), step))`. */
  function Strided<T>(rows: seq<T>, start: nat, step: nat): (shard: seq<T>)
    requires step > 0
    ensures |shard| == StrideCount(start, |rows|, step)
    ensures forall i :: 0 <= i < |shard| ==>
      StrideIndex(start, i, step) < |rows| && shard[i] == rows[StrideIndex(start, i, step)]
  {
    StrideInRange(start, |rows|, step);
    SelectStride(rows, start, step);
    Select(rows, PyRange(start, |rows|, step))
  }

  /** The chunking step of `get_dataset` and the provenance it records. */
  function ApplyChunking<T>(rows: seq<T>, chunkStart: int, chunkStep: int): (r: Result<Handle<T>, Error>)
    ensures r.Err? <==> (chunkStep > 1 || chunkStart > 0) && !(0 <= chunkStart < chunkStep)
    ensures r.Err? ==> r.error == ChunkOutOfRange(chunkStart, chunkStep)
    ensures r.Ok? ==> r.value.provenance.unchunkSize == |rows|
    ensures r.Ok? ==> 0 <= r.value.provenance.chunkStart < r.value.provenance.chunkStep
    ensures !(chunkStep > 1 || chunkStart > 0) ==> r == Ok(Handle(rows, Provenance(|rows|, 0, 1)))
    ensures r.Ok? && (chunkStep > 1 || chunkStart > 0) ==>
      && r.value.provenance == Provenance(|rows|, chunkStart, chunkStep)
      && |r.value.rows| == StrideCount(chunkStart, |rows|, chunkStep)
      && forall i :: 0 <= i < |r.value.rows| ==>
           StrideIndex(chunkStart, i, chunkStep) < |rows| && r.value.rows[i] == rows[StrideIndex(chunkStart, i, chunkStep)]
  {
    var unchunkSize := |rows|;
    if chunkStep > 1 || chunkStart > 0 then
      if !(0 <= chunkStart < chunkStep) then Err(ChunkOutOfRange(chunkStart, chunkStep))
      else
        Ok(Handle(Strided(rows, chunkStart, chunkStep), Provenance(unchunkSize, chunkStart, chunkStep)))
    else
      Ok(Handle(rows, Provenance(unchunkSize, 0, 1)))
  }

  /**
    Reassembly: row `k` of the full dataset is row `k / step` of the shard
    that starts at `k % step`.
   */
  lemma ShardOfRow<T>(rows: seq<T>, chunkStep: int, k: nat)
    requires chunkStep >= 1 && k < |rows|
    ensures var r := ApplyChunking(rows, k % chunkStep, chunkStep);
      r.Ok? && k / chunkStep < |r.value.rows| && r.value.rows[k / chunkStep] == rows[k]
  {
    var s, i := k % chunkStep, k / chunkStep;
    assert s + i * chunkStep == k;
    if chunkStep > 1 {
      InStride(s, |rows|, chunkStep, i);
    }
  }

  /** Shards with different starts never share an input row, and a row has one position in its shard. */
  lemma ShardPositionUnique(start: int, i: nat, step: int, k: int)
    requires 0 <= start < step && k == start + i * step
    ensures start == k % step && i == k / step
  {
    DivModUnique(k, step, i, start);
  }

  /**
    Shards with different starts under one step never hold the same input
    row: row `i1` of one and row `i2` of the other come from different
    input positions.
   */
  lemma ShardsDisjoint<T>(rows: seq<T>, step: int, s1: int, s2: int, i1: nat, i2: nat)
    requires 0 <= s1 < step && 0 <= s2 < step && s1 != s2
    requires ApplyChunking(rows, s1, step).Ok? && i1 < |ApplyChunking(rows, s1, step).value.rows|
    requires ApplyChunking(rows, s2, step).Ok? && i2 < |ApplyChunking(rows, s2, step).value.rows|
    ensures StrideIndex(s1, i1, step) < |rows| && StrideIndex(s2, i2, step) < |rows|
    ensures ApplyChunking(rows, s1, step).value.rows[i1] == rows[StrideIndex(s1, i1, step)]
    ensures ApplyChunking(rows, s2, step).value.rows[i2] == rows[StrideIndex(s2, i2, step)]
    ensures StrideIndex(s1, i1, step) != StrideIndex(s2, i2, step)
  {
    assert step > 1;
    ShardPositionUnique(s1, i1, step, StrideIndex(s1, i1, step));
    ShardPositionUnique(s2, i2, step, StrideIndex(s2, i2, step));
  }

  function ScriptRows<A>(rows: seq<A>): seq<Record<A>> {
    seq(|rows|, k requires 0 <= k < |rows| => ScriptRecord(rows[k]))
  }

  /** `datasets.Dataset.from_dict(ret, features=...)` on the YAML loader's columns. */
  function FromColumns<A>(c: Columns): seq<Record<A>>
    requires |c.filename| == |c.prompt| == |c.metaPath|
  {
    seq(|c.filename|, k requires 0 <= k < |c.filename| => PromptRecord(c.filename[k], c.prompt[k], c.metaPath[k]))
  }

  /**
    The records of a YAML dataset: `repeat` records per sampled name, record
    `i * repeat + j` is `{name}-{j}` with the name's prompt and the manifest
    path, and with distinct names no two records share a filename.
   */
  lemma YamlRecords<A>(meta: Manifest<string>, names: seq<string>, metaPath: string, repeat: int)
    requires forall x :: x in names ==> x in Keys(meta)
    requires Distinct(names)
    ensures var rows: seq<Record<A>> := FromColumns(Expand(meta, names, metaPath, repeat));
      && |rows| == |names| * RangeLength(repeat)
      && (forall i, j :: 0 <= i < |names| && 0 <= j < repeat ==>
            Slot(i, j, repeat) < |rows|
            && rows[Slot(i, j, repeat)] == PromptRecord(Suffixed(names[i], j), Lookup(meta, names[i]), metaPath))
      && (forall k :: 0 <= k < |rows| ==> rows[k].PromptRecord? && rows[k].metaPath == metaPath)
      && (forall k1, k2 :: 0 <= k1 < k2 < |rows| ==> rows[k1].filename != rows[k2].filename)
  {
    ExpandAt(meta, names, metaPath, repeat);
    ExpandDistinctFilenames(meta, names, metaPath, repeat);
  }

  /**
    `get_dataset(name, config_name, split, max_dataset_size, return_gt,
    repeat, chunk_start, chunk_step)`. `yamlMeta` and `shuffled` are the
    parsed manifest and what the seeded shuffle leaves when `name` is a
    manifest path; `loadDataset` stands for `datasets.load_dataset`;
    `packageDir` is the directory of the module.
   */
  method GetDataset<A>(name: string, configName: Option<string>, split: string, maxDatasetSize: int,
                       returnGt: bool, repeat: int, chunkStart: int, chunkStep: int,
                       packageDir: string, yamlMeta: Manifest<string>, shuffled: seq<string>,
                       loadDataset: LoadRequest -> seq<A>)
    returns (r: Result<Handle<Record<A>>, Error>)
    requires ValidManifest(yamlMeta) && IsShuffleOf(shuffled, Keys(yamlMeta))
    ensures Route(name).Err? ==> r == Err(UnknownDatasetName(name))
    ensures Route(name) == Ok(YamlFile) ==>
      r == ApplyChunking(
        FromColumns(Expand(yamlMeta, SampleNames(Keys(yamlMeta), shuffled, maxDatasetSize), name, repeat)),
        chunkStart, chunkStep)
    ensures Route(name).Ok? && Route(name).value.DatasetScript? ==>
      r == ApplyChunking(
        ScriptRows(loadDataset(LoadRequest(PosixJoin(packageDir, name), returnGt, configName, split,
                                           true, false, maxDatasetSize))),
        chunkStart, chunkStep)
  {
    var loader :- Route(name);
    var dataset: seq<Record<A>>;
    match loader {
      case YamlFile =>
        var columns := LoadDatasetYaml(name, yamlMeta, shuffled, maxDatasetSize, repeat);
        dataset := FromColumns(columns);
      case DatasetScript(_) =>
        var path := PosixJoin(packageDir, name);
        dataset := ScriptRows(loadDataset(LoadRequest(path, returnGt, configName, split, true, false, maxDatasetSize)));
    }
    r := ApplyChunking(dataset, chunkStart, chunkStep);
  }
}
