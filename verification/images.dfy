/** The image pass of the build script (`compressImages`): which gallery files are
    picked up, which encoder settings each file gets or whether it is copied,
    and the three counters the pass accumulates. The file system and the image
    codec are parameters: a directory listing with sizes, and an encoder that
    either reports the size it wrote or fails. */
module Images {
  import opened Opt

  /** A directory entry as `readdirSync` plus `statSync` report it. */
  datatype FileEntry = FileEntry(name: string, size: nat)

  /** What the pass finds on disk: the size of `img/Logo.jpg` when it exists, and
      the listing of `img/gallery` when that directory exists. */
  datatype Source = Source(logo: Option<nat>, gallery: Option<seq<FileEntry>>)

  /** The encoder settings passed to the codec. */
  datatype Encoding =
    | Jpeg(quality: nat, progressive: bool, mozjpeg: bool)
    | Png(quality: nat, compressionLevel: nat)

  /** The optional image codec: absent when it could not be loaded, otherwise an
      encoder from input path and settings to the size of the written file, or
      `None` when encoding throws. */
  datatype Codec = NoCodec | Loaded(encode: (string, Encoding) -> Option<nat>)

  /** How one file reached the output directory. */
  datatype Treatment = Encoded(enc: Encoding) | Copied | CopiedAfterFailure(enc: Encoding)

  /** Where an output file lands below `dist/img`. */
  datatype Place = Top | Gallery

  datatype Output = Output(place: Place, name: string, treatment: Treatment, original: nat, written: nat)

  /** `processedCount`, `totalOriginalSize`, `totalCompressedSize`. */
  datatype Stats = Stats(processedCount: nat, totalOriginalSize: nat, totalCompressedSize: nat)

  const LogoName := "Logo.jpg"
  const LogoEncoding := Jpeg(85, true, false)
  const PhotoEncoding := Jpeg(80, true, true)
  const PngEncoding := Png(80, 9)

  /** The alternatives of the gallery filter `/\.(jpg|jpeg|png|gif)$/i`, with their dot. */
  const GalleryExts := [".jpg", ".jpeg", ".png", ".gif"]

  /** Case folding as a regular expression with the `i` flag and without `u`
      applies it, and as `toLowerCase` acts on ASCII: only `A`-`Z` change. */
  function LowerChar(c: char): char {
    if 'A' <= c <= 'Z' then (c as int + 32) as char else c
  }

  function Lower(s: string): (r: string)
    ensures |r| == |s|
    ensures forall i :: 0 <= i < |s| ==> r[i] == LowerChar(s[i])
  {
    seq(|s|, i requires 0 <= i < |s| => LowerChar(s[i]))
  }

  predicate EndsWith(s: string, suffix: string) {
    |suffix| <= |s| && s[|s| - |suffix|..] == suffix
  }

  /** The gallery filter: the name ends, ignoring ASCII case, in one of the four
      extensions. The regular expression has no `m` flag, so `$` is the end of the name. */
  predicate IsGalleryImage(name: string)
    ensures IsGalleryImage(name) ==> |name| >= 4
  {
    exists e :: e in GalleryExts && EndsWith(Lower(name), e)
  }

  /** The index of the last `.` in `s`. */
  function LastDot(s: string): (r: Option<nat>)
    ensures r.Some? ==> r.value < |s| && s[r.value] == '.'
    ensures r.Some? ==> forall j :: r.value < j < |s| ==> s[j] != '.'
    ensures r.None? ==> forall j :: 0 <= j < |s| ==> s[j] != '.'
  {
    if s == [] then None
    else if s[|s| - 1] == '.' then Some(|s| - 1)
    else LastDot(s[..|s| - 1])
  }

  /** Node's `path.extname` for a file name without `/`: the part from the last
      dot on, except that a name without a dot, a name whose only dot is its
      first character (`.jpg`) and the name `..` have no extension. */
  function Extname(name: string): (r: string)
    ensures EndsWith(name, r)
    ensures r != [] ==> r[0] == '.' && forall j :: 0 < j < |r| ==> r[j] != '.'
    ensures r != [] ==> |r| < |name|
  {
    match LastDot(name)
    case None => ""
    case Some(k) =>
      if k == 0 || name == ".." then ""
      else
        assert name[|name| - |name[k..]|..] == name[k..];
        name[k..]
  }

  /** The settings a selected gallery file is encoded with while the codec is
      loaded, or `None` when it is copied: the choice depends on the lower-cased
      `path.extname`. */
  function GalleryEncoding(name: string): (r: Option<Encoding>)
    ensures r.Some? ==> Extname(name) != [] && (r.value == PhotoEncoding || r.value == PngEncoding)
  {
    var ext := Lower(Extname(name));
    if ext == ".jpg" || ext == ".jpeg" then Some(PhotoEncoding)
    else if ext == ".png" then Some(PngEncoding)
    else None
  }

  /** The gallery files the pass processes, in directory order. */
  function Selected(fs: seq<FileEntry>): (r: seq<FileEntry>)
    ensures |r| <= |fs|
    ensures forall f :: f in r <==> f in fs && IsGalleryImage(f.name)
  {
    if fs == [] then []
    else
      var rest := Selected(fs[..|fs| - 1]);
      var f := fs[|fs| - 1];
      assert fs == fs[..|fs| - 1] + [f];
      if IsGalleryImage(f.name) then rest + [f] else rest
  }

  /** The filter works piece by piece: the selected files keep their directory order. */
  lemma {:induction false} SelectedConcat(a: seq<FileEntry>, b: seq<FileEntry>)
    ensures Selected(a + b) == Selected(a) + Selected(b)
    decreases |b|
  {
    if b == [] {
      assert a + b == a;
    } else {
      var init := b[..|b| - 1];
      var f := b[|b| - 1];
      assert (a + b)[..|a + b| - 1] == a + init;
      assert (a + b)[|a + b| - 1] == f;
      SelectedConcat(a, init);
    }
  }

  lemma SelectedSingle(f: FileEntry)
    ensures Selected([f]) == if IsGalleryImage(f.name) then [f] else []
  {
    assert [f][..0] == [];
  }

  function InputPath(place: Place, name: string): string {
    match place
    case Top => "img/" + name
    case Gallery => "img/gallery/" + name
  }

  /** One file through the `if (sharp) { try … catch … } else copy` block:
      `choice` is the encoder setting the code picks, `None` for a plain copy. */
  function Treat(codec: Codec, place: Place, name: string, choice: Option<Encoding>, size: nat): (r: Output)
    ensures r.place == place && r.name == name && r.original == size
    ensures r.treatment.Copied? ==> r.written == size
    ensures r.treatment.CopiedAfterFailure? ==> r.written == size
  {
    match codec
    case NoCodec => Output(place, name, Copied, size, size)
    case Loaded(encode) =>
      match choice
      case None => Output(place, name, Copied, size, size)
      case Some(e) =>
        match encode(InputPath(place, name), e)
        case Some(n) => Output(place, name, Encoded(e), size, n)
        case None => Output(place, name, CopiedAfterFailure(e), size, size)
  }

  function LogoOutputs(codec: Codec, logo: Option<nat>): seq<Output> {
    match logo
    case None => []
    case Some(size) => [Treat(codec, Top, LogoName, Some(LogoEncoding), size)]
  }

  function GalleryOutput(codec: Codec, f: FileEntry): Output {
    Treat(codec, Gallery, f.name, GalleryEncoding(f.name), f.size)
  }

  function GalleryOutputs(codec: Codec, fs: seq<FileEntry>): (r: seq<Output>)
    ensures |r| == |fs|
    ensures forall i :: 0 <= i < |fs| ==> r[i] == GalleryOutput(codec, fs[i])
  {
    seq(|fs|, i requires 0 <= i < |fs| => GalleryOutput(codec, fs[i]))
  }

  function GalleryListing(src: Source): seq<FileEntry> {
    src.gallery.GetOr([])
  }

  /** Everything the pass writes, in the order it writes it: the logo first, then
      the selected gallery files in directory order. */
  function Plan(codec: Codec, src: Source): (r: seq<Output>)
    ensures |r| == (if src.logo.Some? then 1 else 0) + |Selected(GalleryListing(src))|
    ensures forall i :: 0 <= i < |r| ==> (r[i].place == Top <==> src.logo.Some? && i == 0)
  {
    LogoOutputs(codec, src.logo) + GalleryOutputs(codec, Selected(GalleryListing(src)))
  }

  function Count(o: Output): Stats {
    Stats(1, o.original, o.written)
  }

  function Add(a: Stats, b: Stats): Stats {
    Stats(a.processedCount + b.processedCount, a.totalOriginalSize + b.totalOriginalSize,
          a.totalCompressedSize + b.totalCompressedSize)
  }

  /** The three counters after the given outputs, added in order. */
  function Tally(outs: seq<Output>): (r: Stats)
    ensures r.processedCount == |outs|
  {
    if outs == [] then Stats(0, 0, 0)
    else Add(Tally(outs[..|outs| - 1]), Count(outs[|outs| - 1]))
  }

  /** The sum of the sizes in a listing. */
  function SizeSum(fs: seq<FileEntry>): nat {
    if fs == [] then 0 else SizeSum(fs[..|fs| - 1]) + fs[|fs| - 1].size
  }

  lemma TallySnoc(outs: seq<Output>, o: Output)
    ensures Tally(outs + [o]) == Add(Tally(outs), Count(o))
  {
    assert (outs + [o])[..|outs|] == outs;
  }

  lemma SizeSumSnoc(fs: seq<FileEntry>, i: nat)
    requires i < |fs|
    ensures SizeSum(fs[..i + 1]) == SizeSum(fs[..i]) + fs[i].size
  {
    assert fs[..i + 1][..i] == fs[..i];
  }

  lemma GalleryOutputsSnoc(codec: Codec, fs: seq<FileEntry>, i: nat)
    requires i < |fs|
    ensures GalleryOutputs(codec, fs[..i + 1]) == GalleryOutputs(codec, fs[..i]) + [GalleryOutput(codec, fs[i])]
  {
    assert fs[..i + 1] == fs[..i] + [fs[i]];
  }

  /** What the gallery loop has done after its first `i` files. */
  predicate GalleryLoopAt(codec: Codec, files: seq<FileEntry>, i: nat, outs0: seq<Output>, stats0: Stats,
                          outs: seq<Output>, stats: Stats)
  {
    && i <= |files|
    && outs == outs0 + GalleryOutputs(codec, files[..i])
    && stats == Tally(outs)
    && stats.processedCount == stats0.processedCount + i
    && stats.totalOriginalSize == stats0.totalOriginalSize + SizeSum(files[..i])
  }

  /** One iteration: writing the next output and counting it keeps the loop's account. */
  lemma GalleryLoopStep(codec: Codec, files: seq<FileEntry>, i: nat, outs0: seq<Output>, stats0: Stats,
                        outs: seq<Output>, stats: Stats)
    requires i < |files| && GalleryLoopAt(codec, files, i, outs0, stats0, outs, stats)
    ensures var o := GalleryOutput(codec, files[i]);
      GalleryLoopAt(codec, files, i + 1, outs0, stats0, outs + [o], Add(stats, Count(o)))
  {
    var o := GalleryOutput(codec, files[i]);
    assert o.original == files[i].size;
    TallySnoc(outs, o);
    SizeSumSnoc(files, i);
    GalleryOutputsSnoc(codec, files, i);
    AppendAssoc(outs0, GalleryOutputs(codec, files[..i]), [o]);
  }

  lemma AppendAssoc<T>(a: seq<T>, b: seq<T>, c: seq<T>)
    ensures a + b + c == a + (b + c)
  {
  }

  /** The gallery loop of `compressImages`: one iteration per selected file, each
      writing one output and adding to the three counters it starts from. */
  method ProcessGallery(codec: Codec, files: seq<FileEntry>, outs0: seq<Output>, stats0: Stats)
    returns (outs: seq<Output>, stats: Stats)
    requires stats0 == Tally(outs0)
    ensures outs == outs0 + GalleryOutputs(codec, files)
    ensures stats == Tally(outs)
    ensures stats.processedCount == stats0.processedCount + |files|
    ensures stats.totalOriginalSize == stats0.totalOriginalSize + SizeSum(files)
  {
    outs, stats := outs0, stats0;
    var i := 0;
    assert files[..0] == [] && outs0 + [] == outs0;
    while i < |files|
      invariant GalleryLoopAt(codec, files, i, outs0, stats0, outs, stats)
      decreases |files| - i
    {
      var o := GalleryOutput(codec, files[i]);
      GalleryLoopStep(codec, files, i, outs0, stats0, outs, stats);
      outs := outs + [o];
      stats := Add(stats, Count(o));
      i := i + 1;
    }
    assert files[..i] == files;
  }

  /** `compressImages` as the build script runs it: the logo when it exists,
      then the gallery loop over the selected files. */
  method CompressImages(codec: Codec, src: Source) returns (outs: seq<Output>, stats: Stats)
    ensures outs == Plan(codec, src)
    ensures stats == Tally(outs)
    ensures stats.processedCount == (if src.logo.Some? then 1 else 0) + |Selected(GalleryListing(src))|
    ensures stats.totalOriginalSize == src.logo.GetOr(0) + SizeSum(Selected(GalleryListing(src)))
  {
    var logoOuts: seq<Output> := [];
    var logoStats := Stats(0, 0, 0);
    if src.logo.Some? {
      var o := Treat(codec, Top, LogoName, Some(LogoEncoding), src.logo.value);
      TallySnoc([], o);
      assert [] + [o] == [o];
      logoOuts := [o];
      logoStats := Count(o);
    }
    assert logoOuts == LogoOutputs(codec, src.logo);
    var files: seq<FileEntry> := [];
    if src.gallery.Some? {
      files := Selected(src.gallery.value);
    }
    assert files == Selected(GalleryListing(src));
    outs, stats := ProcessGallery(codec, files, logoOuts, logoStats);
  }

  /** The pass counts every file it writes once, whichever path it takes. */
  lemma {:induction false} TallyCountsEachOutput(outs: seq<Output>)
    ensures Tally(outs).processedCount == |outs|
  {
    if outs != [] {
      TallyCountsEachOutput(outs[..|outs| - 1]);
    }
  }

  lemma {:induction false} TallyOfCopies(outs: seq<Output>)
    requires forall i :: 0 <= i < |outs| ==> outs[i].written == outs[i].original
    ensures Tally(outs).totalCompressedSize == Tally(outs).totalOriginalSize
  {
    if outs != [] {
      TallyOfCopies(outs[..|outs| - 1]);
    }
  }

  /** The number of processed images is one for the logo when it exists plus
      one per selected gallery file. */
  lemma PlanCount(codec: Codec, src: Source)
    ensures Tally(Plan(codec, src)).processedCount
         == (if src.logo.Some? then 1 else 0) + |Selected(GalleryListing(src))|
  {
    TallyCountsEachOutput(Plan(codec, src));
  }

  /** A missing gallery directory contributes nothing: only the logo is processed. */
  lemma MissingGalleryOnlyLogo(codec: Codec, src: Source)
    requires src.gallery.None?
    ensures Plan(codec, src) == LogoOutputs(codec, src.logo)
    ensures Tally(Plan(codec, src)).processedCount == (if src.logo.Some? then 1 else 0)
  {
    assert Selected(GalleryListing(src)) == [];
    assert Plan(codec, src) == LogoOutputs(codec, src.logo) + [];
    PlanCount(codec, src);
  }

  /** The `i`-th output of the pass: the logo's, or a selected gallery file's. */
  lemma PlanAt(codec: Codec, src: Source, i: nat)
    requires i < |Plan(codec, src)|
    ensures var l := LogoOutputs(codec, src.logo);
      Plan(codec, src)[i]
        == if i < |l| then Treat(codec, Top, LogoName, Some(LogoEncoding), src.logo.value)
           else GalleryOutput(codec, Selected(GalleryListing(src))[i - |l|])
  {
  }

  /** When no encoding succeeds every output is a copy of its original. */
  lemma NothingEncoded(codec: Codec, src: Source)
    requires codec.Loaded? ==> forall p, e :: codec.encode(p, e).None?
    ensures forall i :: 0 <= i < |Plan(codec, src)| ==>
      !Plan(codec, src)[i].treatment.Encoded? && Plan(codec, src)[i].written == Plan(codec, src)[i].original
    ensures codec.NoCodec? ==> forall i :: 0 <= i < |Plan(codec, src)| ==> Plan(codec, src)[i].treatment == Copied
  {
    forall i | 0 <= i < |Plan(codec, src)|
      ensures !Plan(codec, src)[i].treatment.Encoded? && Plan(codec, src)[i].written == Plan(codec, src)[i].original
      ensures codec.NoCodec? ==> Plan(codec, src)[i].treatment == Copied
    {
      PlanAt(codec, src, i);
    }
  }

  /** Without the codec every file is copied, so the compressed total equals the original total. */
  lemma NoCodecCopiesEverything(src: Source)
    ensures forall i :: 0 <= i < |Plan(NoCodec, src)| ==> Plan(NoCodec, src)[i].treatment == Copied
    ensures Tally(Plan(NoCodec, src)).totalCompressedSize == Tally(Plan(NoCodec, src)).totalOriginalSize
  {
    NothingEncoded(NoCodec, src);
    TallyOfCopies(Plan(NoCodec, src));
  }

  /** The same holds with a codec whose every encoding throws: each file falls
      back to a copy of the original. */
  lemma FailingCodecCopiesEverything(encode: (string, Encoding) -> Option<nat>, src: Source)
    requires forall p, e :: encode(p, e).None?
    ensures forall i :: 0 <= i < |Plan(Loaded(encode), src)| ==> !Plan(Loaded(encode), src)[i].treatment.Encoded?
    ensures Tally(Plan(Loaded(encode), src)).totalCompressedSize
         == Tally(Plan(Loaded(encode), src)).totalOriginalSize
  {
    NothingEncoded(Loaded(encode), src);
    TallyOfCopies(Plan(Loaded(encode), src));
  }

  /** With the codec loaded, the logo is encoded as progressive JPEG at quality 85. */
  lemma LogoSettings(encode: (string, Encoding) -> Option<nat>, size: nat)
    ensures var o := LogoOutputs(Loaded(encode), Some(size))[0];
      o.treatment in {Encoded(Jpeg(85, true, false)), CopiedAfterFailure(Jpeg(85, true, false))}
  {
  }

  lemma LowerAppend(a: string, b: string)
    ensures Lower(a + b) == Lower(a) + Lower(b)
  {
  }

  lemma LowerEndsWith(s: string, x: string)
    requires EndsWith(s, x)
    ensures EndsWith(Lower(s), Lower(x))
  {
    assert s == s[..|s| - |x|] + x;
    LowerAppend(s[..|s| - |x|], x);
  }

  /** Two endings of one string agree on the shorter one's length. */
  lemma EndingsAgree(s: string, a: string, b: string)
    requires EndsWith(s, a) && EndsWith(s, b) && |a| <= |b|
    ensures b[|b| - |a|..] == a
  {
    forall j | 0 <= j < |a|
      ensures b[|b| - |a|..][j] == a[j]
    {
      assert b[|b| - |a| + j] == s[|s| - |a| + j];
    }
  }

  /** The shape every gallery extension has: a dot, then at least three letters
      without a dot, all lower-case. */
  predicate ExtShaped(e: string) {
    |e| >= 4 && e[0] == '.' && (forall j :: 1 <= j < |e| ==> e[j] != '.') && Lower(e) == e
  }

  lemma GalleryExtShapes(e: string)
    requires e in GalleryExts
    ensures ExtShaped(e)
  {
  }

  /** When the lower-cased name ends in an extension-shaped `e` and is longer
      than it, `path.extname` returns exactly that ending. */
  lemma ExtnameOfEnding(name: string, e: string)
    requires ExtShaped(e) && EndsWith(Lower(name), e) && |e| < |name|
    ensures Lower(Extname(name)) == e
  {
    var k := |name| - |e|;
    assert Lower(name)[k..] == e;
    assert name[k] == '.' by { assert LowerChar(name[k]) == e[0]; }
    forall j | k < j < |name|
      ensures name[j] != '.'
    {
      assert LowerChar(name[j]) == e[j - k];
    }
    assert LastDot(name) == Some(k);
    assert name != ".." by { assert |name| > 4; }
    assert Extname(name) == name[k..];
    assert Lower(name[k..]) == Lower(name)[k..];
  }

  /** A name that is nothing but an extension-shaped string has no extension of its own. */
  lemma ExtnameOfWholeExt(name: string)
    requires ExtShaped(Lower(name))
    ensures Extname(name) == ""
  {
    var e := Lower(name);
    assert name[0] == '.' by { assert LowerChar(name[0]) == e[0]; }
    forall j | 0 < j < |name|
      ensures name[j] != '.'
    {
      assert LowerChar(name[j]) == e[j];
    }
    assert LastDot(name) == Some(0);
  }

  /** For a selected name, `path.extname` is either empty, when the name is
      nothing but the extension, or exactly the lower-cased ending that matched. */
  lemma SelectedExtname(name: string)
    requires IsGalleryImage(name)
    ensures Lower(name) in GalleryExts ==> Extname(name) == ""
    ensures Lower(name) !in GalleryExts ==>
      Lower(Extname(name)) in GalleryExts && EndsWith(Lower(name), Lower(Extname(name)))
  {
    var e :| e in GalleryExts && EndsWith(Lower(name), e);
    GalleryExtShapes(e);
    if Lower(name) in GalleryExts {
      GalleryExtShapes(Lower(name));
      ExtnameOfWholeExt(name);
    } else {
      assert Lower(name)[|name| - |e|..] == e;
      ExtnameOfEnding(name, e);
    }
  }

  /** The gallery filter, seen through `path.extname`: a name is picked up iff
      its lower-cased extension is one of the four, or the whole name is one of
      them (a name such as `.JPG`, which has no extension). */
  lemma GalleryImageByExtname(name: string)
    ensures IsGalleryImage(name)
        <==> Lower(Extname(name)) in GalleryExts || Lower(name) in GalleryExts
  {
    if IsGalleryImage(name) {
      SelectedExtname(name);
    }
    var x := Extname(name);
    if Lower(x) in GalleryExts {
      LowerEndsWith(name, x);
    }
    if Lower(name) in GalleryExts {
      assert EndsWith(Lower(name), Lower(name));
    }
  }

  /** A string ends in at most one of the four extensions. */
  lemma EndsWithAtMostOne(s: string, a: string, b: string)
    requires a in GalleryExts && b in GalleryExts && a != b
    ensures !(EndsWith(s, a) && EndsWith(s, b))
  {
    if EndsWith(s, a) && EndsWith(s, b) {
      if |a| <= |b| {
        EndingsAgree(s, a, b);
      } else {
        EndingsAgree(s, b, a);
      }
    }
  }

  /** The ending a selected name matched decides the choice alone. */
  lemma ChoiceByEnding(name: string, x: string)
    requires Lower(Extname(name)) == x && x in GalleryExts
    requires EndsWith(Lower(name), x)
    ensures x == ".jpg" || x == ".jpeg" <==> GalleryEncoding(name) == Some(Jpeg(80, true, true))
    ensures x == ".png" <==> GalleryEncoding(name) == Some(Png(80, 9))
    ensures x == ".gif" <==> GalleryEncoding(name).None?
  {
  }

  /** The other endings are absent once one of them matched. */
  lemma OnlyEnding(l: string, x: string)
    requires x in GalleryExts && EndsWith(l, x)
    ensures EndsWith(l, ".jpg") || EndsWith(l, ".jpeg") <==> x == ".jpg" || x == ".jpeg"
    ensures EndsWith(l, ".png") <==> x == ".png"
    ensures EndsWith(l, ".gif") <==> x == ".gif"
  {
    if x != ".jpg" { EndsWithAtMostOne(l, ".jpg", x); }
    if x != ".jpeg" { EndsWithAtMostOne(l, ".jpeg", x); }
    if x != ".png" { EndsWithAtMostOne(l, ".png", x); }
    if x != ".gif" { EndsWithAtMostOne(l, ".gif", x); }
  }

  /** The encoder choice for a selected gallery file, stated on the name alone:
      `.jpg`/`.jpeg` names get JPEG at quality 80 with mozjpeg, `.png` names get
      PNG at quality 80 and level 9, and `.gif` names as well as names that are
      nothing but the extension are copied. */
  lemma GalleryChoice(name: string)
    requires IsGalleryImage(name)
    ensures GalleryEncoding(name) == Some(Jpeg(80, true, true))
        <==> Lower(name) !in GalleryExts && (EndsWith(Lower(name), ".jpg") || EndsWith(Lower(name), ".jpeg"))
    ensures GalleryEncoding(name) == Some(Png(80, 9))
        <==> Lower(name) !in GalleryExts && EndsWith(Lower(name), ".png")
    ensures GalleryEncoding(name).None?
        <==> Lower(name) in GalleryExts || EndsWith(Lower(name), ".gif")
  {
    SelectedExtname(name);
    if Lower(name) !in GalleryExts {
      var x := Lower(Extname(name));
      ChoiceByEnding(name, x);
      OnlyEnding(Lower(name), x);
    }
  }

  /** A non-empty stem followed by the upper-case `.JPG` is selected and encoded as a photo. */
  lemma UpperJpgIsPhoto(stem: string)
    requires stem != []
    ensures IsGalleryImage(stem + ".JPG")
    ensures GalleryEncoding(stem + ".JPG") == Some(PhotoEncoding)
  {
    var name := stem + ".JPG";
    var x := GalleryExts[0];
    GalleryExtShapes(x);
    LowerAppend(stem, ".JPG");
    assert Lower(".JPG") == x;
    assert Lower(name)[|name| - |x|..] == x;
    ExtnameOfEnding(name, x);
  }
}
