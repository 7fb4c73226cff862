# Dataset sampling, repetition and chunking of the diffusion data loaders

This project models the row-selection logic of the diffusion benchmark
loaders in `deepcompressor/app/diffusion/dataset/data`:

- the MJHQ-30K adapter's example generator (`DCI._generate_examples` in
  `MJHQ/MJHQ.py`), which samples manifest keys under a size cap and yields
  one indexed row per selected key, opening the ground-truth image only on
  request;
- `load_dataset_yaml` (`__init__.py`), which samples the keys of a YAML
  prompt manifest the same way and expands each selected name into
  `repeat` rows named `{name}-{j}`;
- `get_dataset` (`__init__.py`), which routes a dataset name to the YAML
  loader or to one of the dataset scripts COCO, DCI and MJHQ, optionally
  keeps one strided shard of the rows (`chunk_start`, `chunk_step`), and
  records `unchunk_size`, `chunk_start` and `chunk_step` beside the rows.

A parsed manifest is an insertion-ordered list of (key, value) pairs with
distinct keys (`Sampling.Manifest`). The seeded shuffle
`random.Random(0).shuffle(names)` is not reproduced: the list it leaves is a
parameter, constrained only to be a rearrangement of the keys, so every
property holds for every outcome of the shuffle. Python's `sorted` on `str`
orders by code points, lexicographically (`StringOrder.Less`); it is modelled
as insertion sort (`Sorting.Sort`), and by `Sorting.SortedUnique` every
correct sort of the same keys gives the same list.
A dataset is a sequence of rows; the provenance that `get_dataset` attaches
as attributes is an explicit `Dispatch.Provenance` record in a
`Dispatch.Handle`.

Modules, one per concern: `Wrappers` (Option, Result), `StringOrder`,
`Sorting`, `Text` (`endswith`, `str(j)`, `os.path.join`, `{name}-{j}`),
`Sampling` (the sampling code shared verbatim by both loaders), `MJHQ`,
`DatasetYaml`, `Dispatch`.

The sampling code at `__init__.py:12-16` is the same as at `MJHQ.py:145-149`;
both loaders call the one function `Sampling.SampleNames`, so every sampling
property below holds for both.

Two things the source does that a reader may not expect, both modelled as
written: the builder class in `MJHQ/MJHQ.py` is named `DCI`, and its rows
carry the key `meta_path` while its `_info` declares a `prompt_path` feature
(`_info` itself is not part of this model).

## Model

| member | source | states |
|---|---|---|
| `StringOrder.LessIsLexicographic` | deepcompressor/app/diffusion/dataset/data/MJHQ/MJHQ.py:149 | The string order used by `sorted` holds exactly when the first string is a proper prefix of the second or is smaller at the first differing position (both directions). |
| `StringOrder.LessIrreflexive` | deepcompressor/app/diffusion/dataset/data/MJHQ/MJHQ.py:149 | No string is smaller than itself. |
| `StringOrder.LessAsymmetric` | deepcompressor/app/diffusion/dataset/data/MJHQ/MJHQ.py:149 | If a < b then not b < a. |
| `StringOrder.LessTransitive` | deepcompressor/app/diffusion/dataset/data/MJHQ/MJHQ.py:149 | The string order is transitive. |
| `StringOrder.LessTotal` | deepcompressor/app/diffusion/dataset/data/MJHQ/MJHQ.py:149 | Any two different strings are ordered one way or the other. |
| `Sorting.Sort` | deepcompressor/app/diffusion/dataset/data/MJHQ/MJHQ.py:149 | `sorted(names)`: the result is ordered and is a rearrangement (same multiset) of the input. |
| `Sorting.Insert` | deepcompressor/app/diffusion/dataset/data/MJHQ/MJHQ.py:149 | Inserting into an ordered list keeps it ordered and adds exactly the one element. |
| `Sorting.SortedUnique` | deepcompressor/app/diffusion/dataset/data/MJHQ/MJHQ.py:149 | Two ordered lists with the same elements are equal: the sorted output is determined by its elements alone. |
| `Sorting.SortDependsOnlyOnElements` | deepcompressor/app/diffusion/dataset/data/MJHQ/MJHQ.py:149 | Sorting two rearrangements of one list gives the same result. |
| `Sorting.DistinctIffSingleCounts` | deepcompressor/app/diffusion/dataset/data/MJHQ/MJHQ.py:145-148 | A list has no repeated element exactly when every element occurs at most once in its multiset. |
| `Sorting.DistinctRearrangement` | deepcompressor/app/diffusion/dataset/data/MJHQ/MJHQ.py:147 | A rearrangement (the shuffle) of a list of distinct keys has distinct elements. |
| `Sampling.LookupAt` | deepcompressor/app/diffusion/dataset/data/MJHQ/MJHQ.py:152-153 | With distinct keys, `meta[key]` of an entry's key is that entry's value. |
| `Sampling.SortedPrefixFacts` | deepcompressor/app/diffusion/dataset/data/MJHQ/MJHQ.py:147-149 | Sorting the first n shuffled keys gives n distinct manifest keys in strictly increasing order. |
| `Sampling.SampleNames` | deepcompressor/app/diffusion/dataset/data/MJHQ/MJHQ.py:145-149 | Cap <= 0: all keys in manifest order. Cap > 0: `min(cap, len(keys))` names, strictly sorted, exactly the first that many shuffled keys. Always distinct manifest keys. |
| `Sampling.FullSampleIsSortedKeys` | deepcompressor/app/diffusion/dataset/data/__init__.py:12-16 | With a positive cap at least the manifest size, the result is the sorted key list whatever the shuffle did. |
| `Sampling.SampleDependsOnlyOnSelection` | deepcompressor/app/diffusion/dataset/data/__init__.py:13-16 | With a positive cap, the result depends only on which keys the shuffle put first, not on their order. |
| `Sampling.FullSampleIgnoresManifestOrder` | deepcompressor/app/diffusion/dataset/data/__init__.py:12-16 | With a covering cap, two manifests with the same keys in different orders give the same names. |
| `MJHQ.MakeRow` | deepcompressor/app/diffusion/dataset/data/MJHQ/MJHQ.py:152-165 | The row of a key: filename is the key, category and prompt come from `meta[name]`, meta path, image root and split come from the call and config; image path is `join(root, category, name + ".jpg")` and ends with `name.jpg`; an image is present exactly when `return_gt` is set, and is the one opened from the image path. |
| `MJHQ.ImagePathLayout` | deepcompressor/app/diffusion/dataset/data/MJHQ/MJHQ.py:154 | For a relative, non-empty category, a non-empty root without trailing slash and a relative name, the image path is `root/category/name.jpg`. |
| `MJHQ.EmitExamples` | deepcompressor/app/diffusion/dataset/data/MJHQ/MJHQ.py:151-167 | One example per name, in order; example i has key i and the row of name i. |
| `MJHQ.GenerateExamples` | deepcompressor/app/diffusion/dataset/data/MJHQ/MJHQ.py:141-167 | As many examples as sampled names; keys are 0, 1, …, k-1; example i carries the row of the i-th sampled name. |
| `MJHQ.EmittedFilenames` | deepcompressor/app/diffusion/dataset/data/MJHQ/MJHQ.py:145-158 | The emitted filenames are the manifest keys in manifest order without a cap; with a cap, `min(cap, len(meta))` of them, strictly sorted; always distinct manifest keys. |
| `MJHQ.NoImageWithoutGroundTruth` | deepcompressor/app/diffusion/dataset/data/MJHQ/MJHQ.py:160 | No row holds an image exactly when `return_gt` is off (or there are no rows): without it no image is opened. |
| `Text.EndsWithIffConcat` | deepcompressor/app/diffusion/dataset/data/__init__.py:48 | `s.endswith(t)` holds exactly when s is some string followed by t. |
| `Text.PosixJoin` | deepcompressor/app/diffusion/dataset/data/MJHQ/MJHQ.py:154 | `os.path.join` of two parts always ends with the second part. |
| `Text.DecimalRoundTrip` | deepcompressor/app/diffusion/dataset/data/__init__.py:23 | `str(j)` is a non-empty string of digits and reading it back gives j. |
| `Text.NatToStringInjective` | deepcompressor/app/diffusion/dataset/data/__init__.py:23 | Different repetition numbers are written differently. |
| `Text.LastIndexBefore` | deepcompressor/app/diffusion/dataset/data/__init__.py:23 | The last dash of `p + "-" + q`, when q has no dash, is at position len(p). |
| `Text.SplitSuffixedRoundTrip` | deepcompressor/app/diffusion/dataset/data/__init__.py:23 | Splitting `f"{name}-{j}"` at its last dash gives back (name, j), even when the name contains dashes. |
| `Text.SuffixedInjective` | deepcompressor/app/diffusion/dataset/data/__init__.py:23 | `f"{a}-{i}" == f"{b}-{j}"` exactly when a == b and i == j. |
| `DatasetYaml.Expand` | deepcompressor/app/diffusion/dataset/data/__init__.py:18-26 | The three columns built for a name list always have equal length. |
| `DatasetYaml.ExpandAt` | deepcompressor/app/diffusion/dataset/data/__init__.py:18-26 | The columns have `len(names) * max(repeat, 0)` rows; row `i*repeat + j` has filename `names[i]-j` and prompt `meta[names[i]]`; every meta path entry is the manifest path. |
| `DatasetYaml.ExpandDistinctFilenames` | deepcompressor/app/diffusion/dataset/data/__init__.py:20-23 | With distinct names, every generated filename is distinct. |
| `DatasetYaml.LoadDatasetYaml` | deepcompressor/app/diffusion/dataset/data/__init__.py:10-27 | The nested loops build exactly `Expand` of the sampled names: equal-length columns of `len(names) * max(repeat, 0)` rows, the index formula for filename and prompt, the input path in every meta path entry, and distinct filenames. |
| `Dispatch.Route` | deepcompressor/app/diffusion/dataset/data/__init__.py:48-68 | Names ending in `.yaml` or `.yml` go to the YAML loader; otherwise COCO, DCI and MJHQ go to their dataset script; any other name is the unknown-name error (each direction stated). |
| `Dispatch.PyRangeAt` | deepcompressor/app/diffusion/dataset/data/__init__.py:75 | `range(start, stop, step)` has `ceil((stop - start) / step)` elements (0 when start >= stop), and element i is `start + i*step`. |
| `Dispatch.InStride` | deepcompressor/app/diffusion/dataset/data/__init__.py:75 | Shard position i exists exactly when input index `start + i*step` is below the input length. |
| `Dispatch.Strided` | deepcompressor/app/diffusion/dataset/data/__init__.py:75 | `select(range(start, n, step))` has `ceil((n - start) / step)` rows, row i being input row `start + i*step`. |
| `Dispatch.ApplyChunking` | deepcompressor/app/diffusion/dataset/data/__init__.py:72-80 | Fails exactly when `chunk_step > 1 or chunk_start > 0` and not `0 <= chunk_start < chunk_step`. Otherwise the recorded size is the input length and `0 <= start < step` holds. A chunked result has the strided rows and the given start and step. An unchunked result is the unchanged rows with provenance (0, 1). |
| `Dispatch.ShardOfRow` | deepcompressor/app/diffusion/dataset/data/__init__.py:73-80 | Reassembly: input row k is row `k // step` of the shard starting at `k % step`. |
| `Dispatch.ShardsDisjoint` | deepcompressor/app/diffusion/dataset/data/__init__.py:73-80 | Two chunkings with the same step and different valid starts never take the same input row: row `i1` of one shard and row `i2` of the other are input rows at different positions. |
| `Dispatch.YamlRecords` | deepcompressor/app/diffusion/dataset/data/__init__.py:49-58 | The dataset `from_dict` builds from the YAML loader's columns has `len(names) * max(repeat, 0)` records. Record `i * repeat + j` is `{names[i]}-{j}` with that name's prompt and the manifest path. With distinct names no two records share a filename. |
| `Dispatch.GetDataset` | deepcompressor/app/diffusion/dataset/data/__init__.py:30-81 | An unknown name fails with the unknown-name error. A YAML name gives the chunked records of `load_dataset_yaml(name, ...)`; `Dataset.from_dict` is `FromColumns`, one record per column index. A script name gives the chunked rows of `load_dataset(join(package_dir, name), return_gt, name=config_name, split, trust_remote_code=True, token=False, max_dataset_size)`. |

## Left out

- `_split_generators` (`MJHQ.py:75-139`): the cache walk, the zip extraction into a temporary directory with its swallowed exceptions, and the download fallback are file-system and network I/O. `GenerateExamples` takes the resulting `meta_path` and `image_root` as parameters.
- JSON and YAML parsing: the parsed manifest is a parameter. For the YAML loader every value is taken to be a prompt string, and every key is taken to be a string too: `yaml.safe_load` can give integer, boolean or date keys, which `sorted` would order by their own type (integers numerically), which raise `TypeError` when types are mixed, and which `str()` would format into names. JSON object keys are always strings, so the MJHQ manifest is unaffected.
- Manifest order under a partial cap: for a positive cap below the key count, the program's sample depends on the manifest's order, because the seeded shuffle picks positions from the key count alone. The model admits any rearrangement, so it states independence only once the shuffled prefix is fixed; independence from manifest order is proved only for a covering cap (`Sampling.FullSampleIgnoresManifestOrder`).
- Lone surrogates: a Dafny `string` holds Unicode scalar values, while a Python `str` can hold a lone surrogate, which `json.load` produces from an escape such as `"\ud800"`. Keys holding one cannot be represented; otherwise code-point order is reproduced.
- The Mersenne Twister behind `random.Random(0).shuffle`: any rearrangement of the keys is admitted. The real shuffle's permutation depends only on the number of keys; the model does not use that.
- `PIL.Image.open`: a row's image is `Some(OpenedFrom(image_path))`, marking that the open would happen. Open failures are not modelled.
- The laziness of the generator: `GenerateExamples` returns the whole list of examples.
- The `datasets` library: `load_dataset` is the function parameter `loadDataset`, and its rows are opaque. `Dataset.from_dict`, `Features` and `select` become sequence operations.
- `MJHQ.GenerateExamples`: the rows the MJHQ script produces through `load_dataset` are not connected to the rows `GetDataset` receives; the library's builder machinery sits between them.
- `os.path.dirname(__file__)` is the parameter `packageDir`.
- `_info`, the citation, licence and URL constants, and the `MJHQConfig` superclass plumbing are metadata only. The config fields the generator reads are the datatype `MJHQ.Config`.
- The `hasattr` assertions (`__init__.py:69-71`): they always hold, because the provenance is a freshly built record.
- `assert 0 <= chunk_start < chunk_step` becomes the error `ChunkOutOfRange`. Under `python -O` the assertion is skipped; that mode is not modelled.
- `GetDataset` asks for a valid manifest and shuffle even for a script name. There they are unused, so the empty manifest satisfies them.
- `os.path.join` is modelled with POSIX semantics for two parts: an absolute part replaces what precedes it, and a separator is not doubled. Other platforms are not modelled.
