/**
  The MJHQ-30K adapter's example generator (`DCI._generate_examples`): it
  samples the manifest keys and yields one row per selected key, keyed by a
  running index. The manifest maps each key to its category and prompt; the
  JSON parse, the file open and the lazy `yield` are not modelled, so the
  generator's output is the whole list of (index, row) pairs.
 */
module MJHQ {
  import opened Wrappers
  import opened Text
  import opened Sorting
  import opened Sampling

  /** One value of `meta_data.json`. */
  datatype Entry = Entry(category: string, prompt: string)

  /** The two `MJHQConfig` fields the generator reads, and the config name. */
  datatype Config = Config(name: string, maxDatasetSize: int, returnGt: bool)

  /** Stands for the `PIL.Image` that `Image.open(path)` would return. */
  datatype Image = OpenedFrom(path: string)

  datatype Row = Row(
    filename: string,
    category: string,
    image: Option<Image>,
    prompt: string,
    metaPath: string,
    imageRoot: string,
    imagePath: string,
    split: string)

  /** What the generator yields: the example key and the row. */
  datatype Example = Example(index: nat, row: Row)

  /** The row dict built for one selected key. */
  function MakeRow(config: Config, meta: Manifest<Entry>, name: string, metaPath: string, imageRoot: string): (r: Row)
    requires name in Keys(meta)
    ensures r.filename == name
    ensures r.category == Lookup(meta, name).category && r.prompt == Lookup(meta, name).prompt
    ensures r.metaPath == metaPath && r.imageRoot == imageRoot && r.split == config.name
    ensures r.imagePath == PosixJoin(PosixJoin(imageRoot, r.category), name + ".jpg")
    ensures EndsWith(r.imagePath, name + ".jpg")
    ensures r.image.Some? <==> config.returnGt
    ensures r.image.Some? ==> r.image.value == OpenedFrom(r.imagePath)
  {
    var entry := Lookup(meta, name);
    var imagePath := PosixJoin(PosixJoin(imageRoot, entry.category), name + ".jpg");
    Row(
      filename := name,
      category := entry.category,
      image := if config.returnGt then Some(OpenedFrom(imagePath)) else None,
      prompt := entry.prompt,
      metaPath := metaPath,
      imageRoot := imageRoot,
      imagePath := imagePath,
      split := config.name)
  }

  /** With ordinary path components the image path is `root/category/name.jpg`. */
  lemma ImagePathLayout(imageRoot: string, category: string, name: string)
    requires imageRoot != [] && imageRoot[|imageRoot| - 1] != '/'
    requires category != [] && category[0] != '/' && category[|category| - 1] != '/'
    requires name == [] || name[0] != '/'
    ensures PosixJoin(PosixJoin(imageRoot, category), name + ".jpg")
         == imageRoot + "/" + category + "/" + name + ".jpg"
  {
    assert (name + ".jpg")[0] != '/';
    var dir := imageRoot + "/" + category;
    assert dir[|dir| - 1] == category[|category| - 1];
  }

  /** The `for i, name in enumerate(names)` loop: one example per name, keyed by its position. */
  method EmitExamples(config: Config, meta: Manifest<Entry>, names: seq<string>,
                      metaPath: string, imageRoot: string) returns (examples: seq<Example>)
    requires forall x :: x in names ==> x in Keys(meta)
    ensures |examples| == |names|
    ensures forall i :: 0 <= i < |examples| ==> examples[i].index == i
    ensures forall i :: 0 <= i < |examples| ==>
      examples[i].row == MakeRow(config, meta, names[i], metaPath, imageRoot)
  {
    examples := [];
    for i := 0 to |names|
      invariant |examples| == i
      invariant forall k :: 0 <= k < i ==> examples[k].index == k
      invariant forall k :: 0 <= k < i ==>
        examples[k].row == MakeRow(config, meta, names[k], metaPath, imageRoot)
    {
      examples := examples + [Example(i, MakeRow(config, meta, names[i], metaPath, imageRoot))];
    }
  }

  /** `DCI._generate_examples(meta_path, image_root)` over the parsed manifest `meta`. */
  method GenerateExamples(config: Config, meta: Manifest<Entry>, shuffled: seq<string>,
                          metaPath: string, imageRoot: string) returns (examples: seq<Example>)
    requires ValidManifest(meta) && IsShuffleOf(shuffled, Keys(meta))
    ensures var names := SampleNames(Keys(meta), shuffled, config.maxDatasetSize);
      && |examples| == |names|
      && (forall i :: 0 <= i < |examples| ==> examples[i].index == i)
      && (forall i :: 0 <= i < |examples| ==>
            examples[i].row == MakeRow(config, meta, names[i], metaPath, imageRoot))
  {
    var names := SampleNames(Keys(meta), shuffled, config.maxDatasetSize);
    examples := EmitExamples(config, meta, names, metaPath, imageRoot);
  }

  function Filenames(examples: seq<Example>): seq<string> {
    seq(|examples|, i requires 0 <= i < |examples| => examples[i].row.filename)
  }

  /**
    The filenames the generator emits are the sampled names in order: the
    whole manifest in its own order without a cap, a strictly sorted
    selection of distinct keys with one.
   */
  lemma EmittedFilenames(config: Config, meta: Manifest<Entry>, shuffled: seq<string>,
                         metaPath: string, imageRoot: string, examples: seq<Example>)
    requires ValidManifest(meta) && IsShuffleOf(shuffled, Keys(meta))
    requires var names := SampleNames(Keys(meta), shuffled, config.maxDatasetSize);
      && |examples| == |names|
      && forall i :: 0 <= i < |examples| ==>
           examples[i].row == MakeRow(config, meta, names[i], metaPath, imageRoot)
    ensures config.maxDatasetSize <= 0 ==> Filenames(examples) == Keys(meta)
    ensures config.maxDatasetSize > 0 ==> StrictlySorted(Filenames(examples))
    ensures config.maxDatasetSize > 0 ==> |examples| == Min(config.maxDatasetSize, |meta|)
    ensures Distinct(Filenames(examples))
    ensures forall i :: 0 <= i < |examples| ==> examples[i].row.filename in Keys(meta)
  {
    var names := SampleNames(Keys(meta), shuffled, config.maxDatasetSize);
    forall i | 0 <= i < |examples| ensures Filenames(examples)[i] == names[i] {
      assert examples[i].row == MakeRow(config, meta, names[i], metaPath, imageRoot);
    }
    assert Filenames(examples) == names;
  }

  /** With `return_gt` off no row carries an image, so no image file is ever opened. */
  lemma NoImageWithoutGroundTruth(config: Config, meta: Manifest<Entry>, names: seq<string>,
                                  metaPath: string, imageRoot: string, examples: seq<Example>)
    requires forall x :: x in names ==> x in Keys(meta)
    requires |examples| == |names|
    requires forall i :: 0 <= i < |examples| ==>
      examples[i].row == MakeRow(config, meta, names[i], metaPath, imageRoot)
    ensures (forall i :: 0 <= i < |examples| ==> examples[i].row.image.None?) <==> (!config.returnGt || names == [])
  {
    if config.returnGt && names != [] {
      assert examples[0].row.image.Some?;
    }
  }
}
