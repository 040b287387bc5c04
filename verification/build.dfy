/** The driver of the build script: the fixed order of its eight steps with the
    first failure ending the build, the deployment manifest, the date written
    into the sitemap, and the recursive directory size the final report prints. */
module Build {
  import opened Opt
  import Images
  import Minify

  /** The steps `build()` awaits or calls, named after the functions. */
  datatype Step =
    | CompressImages | MinifyHtml | MinifyCss | MinifyJs
    | CreateManifest | CreateHtaccess | CreateRobotsTxt | CreateSitemap

  const BuildOrder: seq<Step> :=
    [CompressImages, MinifyHtml, MinifyCss, MinifyJs, CreateManifest, CreateHtaccess, CreateRobotsTxt, CreateSitemap]

  /** The steps that ran to completion, and the step that threw, if any. */
  datatype Outcome = Outcome(completed: seq<Step>, failed: Option<Step>)

  /** Runs `steps` in order inside one `try`: the first step that throws (as
      `fails` says) ends the run, and no later step starts. */
  function RunSteps(steps: seq<Step>, fails: Step -> bool): (r: Outcome)
    ensures r.completed <= steps
    ensures forall i :: 0 <= i < |r.completed| ==> !fails(r.completed[i])
    ensures r.failed.None? ==> r.completed == steps
    ensures r.failed.Some? ==>
      |r.completed| < |steps| && steps[|r.completed|] == r.failed.value && fails(r.failed.value)
  {
    if steps == [] then Outcome([], None)
    else if fails(steps[0]) then Outcome([], Some(steps[0]))
    else
      var rest := RunSteps(steps[1..], fails);
      Outcome([steps[0]] + rest.completed, rest.failed)
  }

  /** The catch block calls `process.exit(1)`; a run without an error ends normally. */
  function ExitCode(o: Outcome): (c: int)
    ensures c == 0 || c == 1
    ensures c == 1 <==> o.failed.Some?
  {
    if o.failed.Some? then 1 else 0
  }

  /** `build()`: the steps that ran are the first steps of the fixed order, and
      a step that threw is one of the eight. */
  function Build(fails: Step -> bool): (r: Outcome)
    ensures r.completed <= BuildOrder
    ensures r.failed.Some? ==> r.failed.value in BuildOrder && fails(r.failed.value)
  {
    RunSteps(BuildOrder, fails)
  }

  /** The `i`-th step runs to completion iff neither it nor any step before it throws. */
  lemma StepCompletes(steps: seq<Step>, fails: Step -> bool, i: nat)
    requires i < |steps|
    ensures i < |RunSteps(steps, fails).completed| <==> forall j :: 0 <= j <= i ==> !fails(steps[j])
  {
    var r := RunSteps(steps, fails);
    if i < |r.completed| {
      assert forall j :: 0 <= j <= i ==> steps[j] == r.completed[j];
    } else {
      assert fails(steps[|r.completed|]) && |r.completed| <= i;
    }
  }

  /** The build exits with status 1 iff some step throws, and then every step
      after the first throwing one is skipped. */
  lemma ExitCodeOfBuild(fails: Step -> bool)
    ensures ExitCode(Build(fails)) == 1 <==> exists j :: 0 <= j < |BuildOrder| && fails(BuildOrder[j])
    ensures ExitCode(Build(fails)) == 0 <==> Build(fails).completed == BuildOrder
  {
    var r := Build(fails);
    if exists j :: 0 <= j < |BuildOrder| && fails(BuildOrder[j]) {
      var j :| 0 <= j < |BuildOrder| && fails(BuildOrder[j]);
      StepCompletes(BuildOrder, fails, j);
      assert r.failed.Some?;
    }
  }

  /** A failing image pass leaves every other step unrun. */
  lemma ImageFailureStopsEverything(fails: Step -> bool)
    requires fails(CompressImages)
    ensures Build(fails) == Outcome([], Some(CompressImages))
  {
  }

  /** The manifest's file table. */
  datatype ManifestFiles = ManifestFiles(html: string, css: string, js: string, images: string)

  datatype Optimization = Optimization(htmlMinified: bool, cssMinified: bool, jsMinified: bool, imagesOptimized: bool)

  datatype Manifest = Manifest(name: string, version: string, buildDate: string, files: ManifestFiles, optimization: Optimization)

  /** `createManifest`; `buildDate` is the clock reading the script takes.
      `imagesOptimized` records whether the codec was loaded; the three
      minification flags are always set; the file table names the minified
      stylesheet and script. */
  function MakeManifest(codec: Images.Codec, buildDate: string): (m: Manifest)
    ensures m.optimization.imagesOptimized == codec.Loaded?
    ensures m.optimization.htmlMinified && m.optimization.cssMinified && m.optimization.jsMinified
    ensures m.files.css == Minify.StylesMinRef && m.files.js == Minify.ScriptMinRef
    ensures m.buildDate == buildDate
  {
    Manifest("Chayah Kalahari Project NPC", "1.0.0", buildDate,
      ManifestFiles("index.html", Minify.StylesMinRef, Minify.ScriptMinRef, "img/"),
      Optimization(true, true, true, codec.Loaded?))
  }

  /** The manifest records whether the codec was loaded, not whether any image
      was encoded: with a loaded codec whose every encoding throws, the manifest
      still says `imagesOptimized`, although the image pass only copied files. */
  lemma ManifestFlags(codec: Images.Codec, buildDate: string, src: Images.Source)
    ensures var m := MakeManifest(codec, buildDate);
      m.optimization.imagesOptimized == codec.Loaded?
      && m.optimization.htmlMinified && m.optimization.cssMinified && m.optimization.jsMinified
      && m.files.css == Minify.StylesMinRef && m.files.js == Minify.ScriptMinRef
    ensures codec.Loaded? && (forall p, e :: codec.encode(p, e).None?) ==>
      MakeManifest(codec, buildDate).optimization.imagesOptimized
      && forall i :: 0 <= i < |Images.Plan(codec, src)| ==> !Images.Plan(codec, src)[i].treatment.Encoded?
  {
    if codec.Loaded? && forall p, e :: codec.encode(p, e).None? {
      Images.NothingEncoded(codec, src);
    }
  }

  /** `new Date().toISOString().split('T')[0]`: the text before the first `T`. */
  function SitemapDate(iso: string): (r: string)
    ensures r <= iso
    ensures 'T' !in r
    ensures |r| < |iso| ==> iso[|r|] == 'T'
  {
    if iso == [] || iso[0] == 'T' then []
    else [iso[0]] + SitemapDate(iso[1..])
  }

  /** For a timestamp `date + "T" + time` whose date part has no `T`, the sitemap gets the date part. */
  lemma SitemapDateOfTimestamp(date: string, time: string)
    requires 'T' !in date
    ensures SitemapDate(date + "T" + time) == date
  {
    var iso := date + "T" + time;
    var r := SitemapDate(iso);
    assert iso[|date|] == 'T';
    assert forall k :: 0 <= k < |date| ==> iso[k] == date[k];
    assert r == iso[..|r|];
  }

  /** A directory tree as `readdirSync` and `statSync` see it. */
  datatype Entry = File(name: string, size: nat) | Dir(name: string, items: seq<Entry>)

  function EntrySize(e: Entry): nat
    decreases e
  {
    match e
    case File(_, n) => n
    case Dir(_, items) => ItemsSize(items)
  }

  function ItemsSize(items: seq<Entry>): nat
    decreases items
  {
    if items == [] then 0 else EntrySize(items[0]) + ItemsSize(items[1..])
  }

  /** `getDirectorySize`: zero for a path that does not exist, otherwise the
      sizes of the files below it, descending into subdirectories. */
  function DirectorySize(dir: Option<seq<Entry>>): (r: nat)
    ensures dir.Some? ==> r == Sum(FileSizes(dir.value))
  {
    match dir
    case None => 0
    case Some(items) =>
      ItemsSizeIsFileSum(items);
      ItemsSize(items)
  }

  /** Every file below the given entries, in the order the traversal visits them. */
  function FileSizes(items: seq<Entry>): seq<nat>
    decreases items
  {
    if items == [] then []
    else
      match items[0]
      case File(_, n) => [n] + FileSizes(items[1..])
      case Dir(_, sub) => FileSizes(sub) + FileSizes(items[1..])
  }

  function Sum(xs: seq<nat>): nat {
    if xs == [] then 0 else xs[0] + Sum(xs[1..])
  }

  lemma {:induction false} SumConcat(a: seq<nat>, b: seq<nat>)
    ensures Sum(a + b) == Sum(a) + Sum(b)
  {
    if a == [] {
      assert a + b == b;
    } else {
      assert (a + b)[1..] == a[1..] + b;
      SumConcat(a[1..], b);
    }
  }

  /** The recursive size is the sum over the flat list of files. */
  lemma {:induction false} ItemsSizeIsFileSum(items: seq<Entry>)
    ensures ItemsSize(items) == Sum(FileSizes(items))
    decreases items
  {
    if items != [] {
      ItemsSizeIsFileSum(items[1..]);
      match items[0]
      case File(_, n) =>
        assert [n] + FileSizes(items[1..]) == FileSizes(items);
      case Dir(_, sub) =>
        ItemsSizeIsFileSum(sub);
        SumConcat(FileSizes(sub), FileSizes(items[1..]));
    }
  }

  lemma {:induction false} ItemsSizeConcat(a: seq<Entry>, b: seq<Entry>)
    ensures ItemsSize(a + b) == ItemsSize(a) + ItemsSize(b)
  {
    if a == [] {
      assert a + b == b;
    } else {
      assert (a + b)[1..] == a[1..] + b;
      ItemsSizeConcat(a[1..], b);
    }
  }

  /** The files the image pass writes, one per output. */
  function OutputFiles(outs: seq<Images.Output>): (r: seq<Entry>)
    ensures |r| == |outs|
  {
    seq(|outs|, i requires 0 <= i < |outs| => File(outs[i].name, outs[i].written))
  }

  /** `dist/img` after the image pass into an empty directory: the logo at the
      top and the `gallery` directory, which the pass always creates. */
  function ImageTree(codec: Images.Codec, src: Images.Source): seq<Entry> {
    OutputFiles(Images.LogoOutputs(codec, src.logo))
      + [Dir("gallery", OutputFiles(Images.GalleryOutputs(codec, Images.Selected(Images.GalleryListing(src)))))]
  }

  lemma {:induction false} OutputFilesSize(outs: seq<Images.Output>)
    ensures ItemsSize(OutputFiles(outs)) == Images.Tally(outs).totalCompressedSize
  {
    if outs != [] {
      var init := outs[..|outs| - 1];
      OutputFilesSize(init);
      assert OutputFiles(outs) == OutputFiles(init) + [File(outs[|outs| - 1].name, outs[|outs| - 1].written)];
      ItemsSizeConcat(OutputFiles(init), [File(outs[|outs| - 1].name, outs[|outs| - 1].written)]);
    }
  }

  lemma {:induction false} TallyConcat(a: seq<Images.Output>, b: seq<Images.Output>)
    ensures Images.Tally(a + b).totalCompressedSize
         == Images.Tally(a).totalCompressedSize + Images.Tally(b).totalCompressedSize
  {
    if b == [] {
      assert a + b == a;
    } else {
      var init := b[..|b| - 1];
      TallyConcat(a, init);
      assert (a + b)[..|a + b| - 1] == a + init;
    }
  }

  /** The image size the report prints is the compressed total the image pass
      counted, when `dist/img` held nothing before the build. */
  lemma ImageDirectoryMatchesStats(codec: Images.Codec, src: Images.Source)
    ensures DirectorySize(Some(ImageTree(codec, src)))
         == Images.Tally(Images.Plan(codec, src)).totalCompressedSize
  {
    var l := Images.LogoOutputs(codec, src.logo);
    var g := Images.GalleryOutputs(codec, Images.Selected(Images.GalleryListing(src)));
    var gd := Dir("gallery", OutputFiles(g));
    ItemsSizeConcat(OutputFiles(l), [gd]);
    OutputFilesSize(l);
    OutputFilesSize(g);
    assert ItemsSize([gd]) == EntrySize(gd) + ItemsSize([]);
    TallyConcat(l, g);
  }
}
