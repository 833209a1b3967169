/** The image helpers of utils/image.go: hidden-path detection, the source
    lookup behind ReadImage, variant naming and dispatch, the dimension
    arithmetic of Scale, and the per-file decisions of FixAllFiles.

    The filesystem is a map from path to node; os.Open of a path succeeds
    exactly when the path is in the map (Go opens directories too).  Pixels
    are not modelled: a raster is its width and height, and what a decoder
    makes of a file's bytes is recorded in the node. */
module ImageUtil {
  import opened GoLib

  // ---------------------------------------------------------------------------
  // Hidden paths
  // ---------------------------------------------------------------------------

  /** ContainsDotFile: some '/'-separated segment of `name` starts with '.'.
      Equivalently, a '.' sits at the start of the name or right after a
      '/'; empty segments (a leading, trailing or doubled '/') never make a
      name hidden. */
  function ContainsDotFile(name: string): (hidden: bool)
    ensures hidden <==> DotOpensSegment(name)
  {
    var parts := Split(name, '/');
    DotOpensSegmentPieces(parts);
    exists k :: 0 <= k < |parts| && HasPrefix(parts[k], ".")
  }

  /** Character-level reading of the hidden-name rule. */
  predicate DotOpensSegment(name: string) {
    exists i :: 0 <= i < |name| && name[i] == '.' && (i == 0 || name[i - 1] == '/')
  }

  /** A '/' never opens a segment with a dot, so the rule is local to each
      side of a '/'. */
  lemma DotOpensSegmentJoin(a: string, b: string)
    ensures DotOpensSegment(a + "/" + b) <==> DotOpensSegment(a) || DotOpensSegment(b)
  {
    var s := a + "/" + b;
    if DotOpensSegment(s) {
      var i :| 0 <= i < |s| && s[i] == '.' && (i == 0 || s[i - 1] == '/');
      if i < |a| {
        assert a[i] == '.';
        if i > 0 {
          assert a[i - 1] == s[i - 1];
        }
      } else {
        assert i > |a|;
        assert b[i - |a| - 1] == '.';
        if i > |a| + 1 {
          assert b[i - |a| - 2] == s[i - 1];
        }
      }
    }
    if DotOpensSegment(a) {
      var i :| 0 <= i < |a| && a[i] == '.' && (i == 0 || a[i - 1] == '/');
      assert s[i] == '.';
      if i > 0 {
        assert s[i - 1] == a[i - 1];
      }
    }
    if DotOpensSegment(b) {
      var j :| 0 <= j < |b| && b[j] == '.' && (j == 0 || b[j - 1] == '/');
      assert s[j + |a| + 1] == '.';
      var i := j + |a| + 1;
      if j > 0 {
        assert s[i - 1] == b[j - 1];
      } else {
        assert s[i - 1] == '/';
      }
    }
  }

  /** Within a single segment the rule reads "starts with a dot". */
  lemma DotOpensSegmentBase(p: string)
    requires '/' !in p
    ensures DotOpensSegment(p) <==> HasPrefix(p, ".")
  {
    if DotOpensSegment(p) {
      var i :| 0 <= i < |p| && p[i] == '.' && (i == 0 || p[i - 1] == '/');
      assert i == 0;
    }
    if HasPrefix(p, ".") {
      assert p[0] == '.';
    }
  }

  lemma {:induction false} DotOpensSegmentPieces(parts: seq<string>)
    requires |parts| > 0
    requires forall k :: 0 <= k < |parts| ==> '/' !in parts[k]
    ensures DotOpensSegment(JoinWith(parts, '/')) <==>
            exists k :: 0 <= k < |parts| && HasPrefix(parts[k], ".")
    decreases |parts|
  {
    DotOpensSegmentBase(parts[0]);
    if |parts| > 1 {
      var rest := parts[1..];
      assert JoinWith(parts, '/') == parts[0] + "/" + JoinWith(rest, '/');
      DotOpensSegmentJoin(parts[0], JoinWith(rest, '/'));
      DotOpensSegmentPieces(rest);
      if exists k :: 0 <= k < |rest| && HasPrefix(rest[k], ".") {
        var k :| 0 <= k < |rest| && HasPrefix(rest[k], ".");
        assert parts[k + 1] == rest[k];
      }
      if exists k :: 0 <= k < |parts| && HasPrefix(parts[k], ".") {
        var k :| 0 <= k < |parts| && HasPrefix(parts[k], ".");
        if k > 0 {
          assert rest[k - 1] == parts[k];
        }
      }
    }
  }

  /** For a bare file name (no '/'), hidden means "starts with a dot". */
  lemma BaseNameHidden(name: string)
    requires '/' !in name
    ensures ContainsDotFile(name) <==> |name| > 0 && name[0] == '.'
  {
    DotOpensSegmentBase(name);
  }

  /** A path joined with '/' is hidden exactly when either side is. */
  lemma ContainsDotFileJoin(a: string, b: string)
    ensures ContainsDotFile(a + "/" + b) <==> ContainsDotFile(a) || ContainsDotFile(b)
  {
    DotOpensSegmentJoin(a, b);
  }

  // ---------------------------------------------------------------------------
  // Rasters and the filesystem
  // ---------------------------------------------------------------------------

  /** A raster's dimensions (pixels are not modelled). */
  datatype Raster = Raster(width: nat, height: nat)

  /** What a decoder can produce: both sides positive (PNG, JPEG and WebP all
      reject a zero-sized image). */
  type Decoded = r: Raster | r.width > 0 && r.height > 0 witness Raster(1, 1)

  /** A directory, or a regular file together with what png.Decode makes of
      its bytes (None when they are not a PNG). */
  datatype Node = Directory | File(png: Option<Decoded>)

  type FileSystem = map<string, Node>

  // ---------------------------------------------------------------------------
  // Source lookup and ReadImage
  // ---------------------------------------------------------------------------

  /** The names ReadImage tries to open, in this order. */
  function SourceCandidates(filePath: string): seq<string> {
    [filePath, filePath + ".png", filePath + ".jpg", filePath + ".webp", filePath + ".jpeg"]
  }

  /** Index of the first name that opens. */
  function FirstExisting(fs: FileSystem, names: seq<string>): (r: Option<nat>)
    ensures r.Some? ==> r.value < |names| && names[r.value] in fs
    ensures r.Some? ==> forall j :: 0 <= j < r.value ==> names[j] !in fs
    ensures r.None? <==> forall j :: 0 <= j < |names| ==> names[j] !in fs
    decreases |names|
  {
    if |names| == 0 then None
    else if names[0] in fs then Some(0)
    else match FirstExisting(fs, names[1..])
      case None => None
      case Some(i) => Some(i + 1)
  }

  /** The candidate ReadImage ends up with: the first of the five names
      that opens. */
  function Locate(fs: FileSystem, filePath: string): (r: Option<string>)
    ensures r.None? <==> forall j :: 0 <= j < 5 ==> SourceCandidates(filePath)[j] !in fs
    ensures r.Some? ==>
      exists i :: 0 <= i < 5 && r.value == SourceCandidates(filePath)[i] &&
                  (forall j :: 0 <= j < i ==> SourceCandidates(filePath)[j] !in fs)
    ensures r.Some? ==> r.value in fs
  {
    var cands := SourceCandidates(filePath);
    match FirstExisting(fs, cands)
    case None => None
    case Some(i) => Some(cands[i])
  }

  /** The name of the derived file written for a variant.  The extension is
      that of the REQUESTED path, not of the candidate that was opened; when
      the request has none, the variant name itself becomes the extension. */
  function VariantPath(filePath: string, variant: string): (v: string)
    ensures HasPrefix(v, filePath + ".") && v != filePath
    ensures HasSuffix(v, Ext(filePath)) && |v| == |filePath| + 1 + |variant| + |Ext(filePath)|
    ensures v[|filePath| + 1..|v| - |Ext(filePath)|] == variant
    ensures Ext(filePath) != "" ==> Ext(v) == Ext(filePath)
    ensures Ext(filePath) == "" && variant != "" && '.' !in variant && '/' !in variant ==>
      Ext(v) == "." + variant
  {
    var e := Ext(filePath);
    var q := filePath + "." + variant;
    assert (q + e)[..|filePath| + 1] == filePath + ".";
    assert (q + e)[|q + e| - |e|..] == e;
    assert (q + e)[|filePath| + 1..|q + e| - |e|] == variant;
    if e != "" then
      ExtOfSuffix(q, e);
      q + e
    else if variant != "" && '.' !in variant && '/' !in variant then
      assert q == filePath + ("." + variant);
      assert ("." + variant)[1..] == variant;
      ExtOfSuffix(filePath, "." + variant);
      q
    else
      q
  }

  datatype ReadError = FileNotFound | DecodeError | CreateError | EncodeError

  /** The derived file ReadImage writes: where, and the raster encoded there
      (always as PNG, whatever the name's extension says). */
  datatype VariantWrite = VariantWrite(path: string, image: Raster)

  datatype ReadOutcome =
    | Loaded(image: Raster, written: Option<VariantWrite>)
    | Failed(error: ReadError)

  /** How the write of the derived file goes: os.Create and png.Encode are
      I/O, so their outcome is an input.  png.Encode also refuses, on its
      own, an image with a zero side. */
  datatype WriteStatus = WriteOk | CreateFails | EncodeFails

  /** The located candidate is a visible regular file. */
  predicate Readable(fs: FileSystem, name: string) {
    name in fs && fs[name].File? && !ContainsDotFile(name)
  }

  /** The located candidate is a visible regular file holding a PNG. */
  predicate LocatedPng(fs: FileSystem, filePath: string) {
    Locate(fs, filePath).Some? && Readable(fs, Locate(fs, filePath).value) &&
    fs[Locate(fs, filePath).value].png.Some?
  }

  /** The image decoded from the located candidate. */
  function SourceImage(fs: FileSystem, filePath: string): Decoded
    requires LocatedPng(fs, filePath)
  {
    fs[Locate(fs, filePath).value].png.value
  }

  /** ReadImage(filePath, variant): open the first candidate that exists,
      refuse it if it is a directory or hidden, decode it as PNG, and, for a
      non-empty variant, transform it and write it next to the request. */
  function ReadImage(fs: FileSystem, filePath: string, variant: string, write: WriteStatus): (r: ReadOutcome)
    ensures r.Loaded? ==> (Locate(fs, filePath).Some? &&
      var n := Locate(fs, filePath).value;
      Readable(fs, n) && fs[n].png.Some? && r.image == ApplyVariant(fs[n].png.value, variant))
    ensures r.Loaded? ==> r.image.width > 0 && r.image.height > 0
    ensures r == Failed(DecodeError) <==>
      Locate(fs, filePath).Some? && Readable(fs, Locate(fs, filePath).value) &&
      fs[Locate(fs, filePath).value].png.None?
    ensures r.Loaded? && variant == "" ==> r.written.None?
    ensures r.Loaded? && variant != "" ==>
      r.written == Some(VariantWrite(VariantPath(filePath, variant), r.image))
    ensures r.Loaded? <==>
      LocatedPng(fs, filePath) &&
      (variant == "" ||
       (write == WriteOk && ApplyVariant(SourceImage(fs, filePath), variant).width > 0 &&
        ApplyVariant(SourceImage(fs, filePath), variant).height > 0))
    ensures r == Failed(CreateError) <==> LocatedPng(fs, filePath) && variant != "" && write == CreateFails
    ensures r == Failed(EncodeError) <==>
      LocatedPng(fs, filePath) && variant != "" && write != CreateFails &&
      (write == EncodeFails || ApplyVariant(SourceImage(fs, filePath), variant).width == 0 ||
       ApplyVariant(SourceImage(fs, filePath), variant).height == 0)
  {
    match Locate(fs, filePath)
    case None => Failed(FileNotFound)
    case Some(name) =>
      if fs[name].Directory? || ContainsDotFile(name) then Failed(FileNotFound)
      else match fs[name].png
        case None => Failed(DecodeError)
        case Some(img) =>
          if variant == "" then Loaded(img, None)
          else
            var out := ApplyVariant(img, variant);
            match write
            case CreateFails => Failed(CreateError)
            case EncodeFails => Failed(EncodeError)
            case WriteOk =>
              if out.width == 0 || out.height == 0 then Failed(EncodeError)
              else Loaded(out, Some(VariantWrite(VariantPath(filePath, variant), out)))
  }

  /** "file not found" comes out exactly when no candidate opens, or the
      first one that opens is a directory or hidden. */
  lemma ReadImageNotFoundIff(fs: FileSystem, filePath: string, variant: string, write: WriteStatus)
    ensures ReadImage(fs, filePath, variant, write) == Failed(FileNotFound) <==>
      (forall j :: 0 <= j < 5 ==> SourceCandidates(filePath)[j] !in fs) ||
      (exists i :: 0 <= i < 5 && SourceCandidates(filePath)[i] in fs &&
        (forall j :: 0 <= j < i ==> SourceCandidates(filePath)[j] !in fs) &&
        (fs[SourceCandidates(filePath)[i]].Directory? || ContainsDotFile(SourceCandidates(filePath)[i])))
  {
    var cands := SourceCandidates(filePath);
    var r := FirstExisting(fs, cands);
    if r.Some? {
      forall i | 0 <= i < 5 && cands[i] in fs && (forall j :: 0 <= j < i ==> cands[j] !in fs)
        ensures i == r.value
      {
      }
    }
  }

  /** The first candidate that opens decides: a readable, visible file there
      is loaded (without a variant) even if later candidates also exist. */
  lemma ReadImageSearchOrder(fs: FileSystem, filePath: string, i: nat, img: Decoded)
    requires i < 5
    requires forall j :: 0 <= j < i ==> SourceCandidates(filePath)[j] !in fs
    requires SourceCandidates(filePath)[i] in fs
    requires fs[SourceCandidates(filePath)[i]] == File(Some(img))
    requires !ContainsDotFile(SourceCandidates(filePath)[i])
    ensures ReadImage(fs, filePath, "", WriteOk) == Loaded(img, None)
  {
    var cands := SourceCandidates(filePath);
    var r := FirstExisting(fs, cands);
    assert r.Some?;
  }

  /** A directory at the requested path hides every extension candidate. */
  lemma DirectoryShadowsCandidates(fs: FileSystem, filePath: string, variant: string, write: WriteStatus)
    requires filePath in fs && fs[filePath] == Directory
    ensures ReadImage(fs, filePath, variant, write) == Failed(FileNotFound)
  {
    assert SourceCandidates(filePath)[0] == filePath;
  }

  /** A variant that collapses a side to 0 cannot be encoded: the request
      fails once the derived file has been created. */
  lemma DegenerateVariantFails(fs: FileSystem, filePath: string, variant: string, write: WriteStatus, img: Decoded)
    requires Locate(fs, filePath).Some? && Readable(fs, Locate(fs, filePath).value)
    requires fs[Locate(fs, filePath).value].png == Some(img)
    requires variant != "" && write != CreateFails
    requires ApplyVariant(img, variant).width == 0 || ApplyVariant(img, variant).height == 0
    ensures ReadImage(fs, filePath, variant, write) == Failed(EncodeError)
  {
  }

  /** The derived file of an extension-less request has no image extension,
      even when the source that was found is a .png. */
  lemma VariantOfExtensionlessRequest()
    ensures ReadImage(map["a/b.png" := File(Some(Raster(800, 400)))], "a/b", "preview", WriteOk)
         == Loaded(Raster(384, 192), Some(VariantWrite("a/b.preview", Raster(384, 192))))
  {
    var fs := map["a/b.png" := File(Some(Raster(800, 400)))];
    assert SourceCandidates("a/b")[0] !in fs;
    assert SourceCandidates("a/b")[1] == "a/b.png";
    assert FirstExisting(fs, SourceCandidates("a/b")) == Some(1);
    assert Locate(fs, "a/b") == Some("a/b.png");
    ExampleNameVisible();
    ExampleVariantPath();
    assert Preview(Raster(800, 400)) == Raster(384, 192);
  }

  lemma ExampleVariantPath()
    ensures VariantPath("a/b", "preview") == "a/b.preview"
  {
    ExampleNoExt();
    assert '.' in "a/b.preview" && "a/b" + "." + "preview" == "a/b.preview";
  }

  lemma ExampleNameVisible()
    ensures !ContainsDotFile("a/b.png")
  {
    assert JoinWith(["a", "b.png"], '/') == "a/b.png";
    SplitJoin(["a", "b.png"], '/');
    var parts := Split("a/b.png", '/');
    assert parts == ["a", "b.png"];
    assert "a"[..1] != "." && "b.png"[..1] != ".";
  }

  lemma ExampleNoExt()
    ensures Ext("a/b") == ""
  {
    assert "a/b"[..2] == "a/";
    assert Ext("a/") == "";
  }

  /** A request whose last segment starts with '.' is refused even though
      its ".png" candidate exists: that candidate is hidden too. */
  lemma HiddenRequestRefused(img: Decoded)
    ensures ReadImage(map["img/.cat.png" := File(Some(img))], "img/.cat", "", WriteOk) == Failed(FileNotFound)
  {
    var fs := map["img/.cat.png" := File(Some(img))];
    assert SourceCandidates("img/.cat")[0] !in fs;
    assert SourceCandidates("img/.cat")[1] == "img/.cat.png";
    assert FirstExisting(fs, SourceCandidates("img/.cat")) == Some(1);
    assert "img/.cat.png"[4] == '.' && "img/.cat.png"[3] == '/';
  }

  /** The derived name starts with the request plus '.', keeps the request's
      extension, and names each variant differently. */
  lemma VariantPathShape(filePath: string, variant: string, other: string)
    ensures HasPrefix(VariantPath(filePath, variant), filePath + ".")
    ensures HasSuffix(VariantPath(filePath, variant), Ext(filePath))
    ensures VariantPath(filePath, variant) != filePath
    ensures VariantPath(filePath, variant) == VariantPath(filePath, other) ==> variant == other
  {
    var p := VariantPath(filePath, variant);
    var e := Ext(filePath);
    assert p == filePath + "." + variant + e;
    assert p[..|filePath| + 1] == filePath + ".";
    assert p[|p| - |e|..] == e;
    if p == VariantPath(filePath, other) {
      assert variant == p[|filePath| + 1..|p| - |e|];
      assert other == VariantPath(filePath, other)[|filePath| + 1..|p| - |e|];
    }
  }

  /** Ext only looks at the text after the last '.', so a tail that is
      itself an extension decides it. */
  lemma {:induction false} ExtOfSuffix(q: string, e: string)
    requires e != [] && e[0] == '.' && '.' !in e[1..] && '/' !in e
    ensures Ext(q + e) == e
    decreases |e|
  {
    var s := q + e;
    if |e| == 1 {
      assert s[|s| - 1] == '.';
    } else {
      var init := e[..|e| - 1];
      assert s[..|s| - 1] == q + init;
      assert init[1..] == e[1..|e| - 1];
      assert e[|e| - 1] in e[1..];
      ExtOfSuffix(q, init);
    }
  }

  // ---------------------------------------------------------------------------
  // Scale, Preview and ApplyVariant
  // ---------------------------------------------------------------------------

  /** The long edge of the "preview" variant: 256 + 128. */
  const PreviewSize: nat := 384

  /** Scale: the longer side (the height on a tie) becomes `size`, the other
      side is scaled in proportion and TRUNCATED.  Nothing keeps that side
      from reaching 0.  Both sides zero would divide 0 by 0 and is excluded. */
  function Scale(img: Raster, size: nat): (r: Raster)
    requires img.width > 0 || img.height > 0
    ensures img.width > img.height ==>
      r.width == size && r.height * img.width <= img.height * size < (r.height + 1) * img.width
    ensures img.width <= img.height ==>
      r.height == size && r.width * img.height <= img.width * size < (r.width + 1) * img.height
    ensures r.width <= size && r.height <= size
  {
    if img.width > img.height then
      var h := ScaledSide(img.height, img.width, size);
      Raster(size, h)
    else
      var w := ScaledSide(img.width, img.height, size);
      Raster(w, size)
  }

  /** The short side of a scaled image: short * size / long, truncated. */
  function ScaledSide(short: nat, long: nat, size: nat): (s: nat)
    requires 0 < long && short <= long
    ensures s * long <= short * size < (s + 1) * long
    ensures s <= size
  {
    var q := short * size / long;
    FloorDiv(short * size, long);
    MulMonotone(short, long, size);
    assert q <= size by {
      if q > size {
        MulMonotone(size + 1, q, long);
      }
    }
    q
  }

  lemma FloorDiv(n: nat, d: nat)
    requires d > 0
    ensures (n / d) * d <= n < (n / d + 1) * d
  {
  }

  lemma MulMonotone(a: nat, b: nat, c: nat)
    requires a <= b
    ensures a * c <= b * c
  {
  }

  /** A square becomes size x size. */
  lemma ScaleSquare(n: nat, size: nat)
    requires n > 0
    ensures Scale(Raster(n, n), size) == Raster(size, size)
  {
    var r := Scale(Raster(n, n), size);
    assert r.width * n <= n * size < (r.width + 1) * n;
    if r.width < size {
      MulMonotone(r.width + 1, size, n);
    }
  }

  /** Truncation, not rounding (999*384/1000 = 383.6 gives 383), and a thin
      strip collapses to height 0. */
  lemma ScaleTruncates()
    ensures Scale(Raster(1000, 999), PreviewSize) == Raster(384, 383)
    ensures Scale(Raster(1000, 1), PreviewSize) == Raster(384, 0)
  {
  }

  /** Preview: Scale to the preview long edge. */
  function Preview(img: Decoded): (r: Raster)
    ensures r.width == PreviewSize || r.height == PreviewSize
    ensures r.width <= PreviewSize && r.height <= PreviewSize
  {
    Scale(img, PreviewSize)
  }

  /** ApplyVariant: "preview" is the only named transform; every other
      variant name leaves the image as it is. */
  function ApplyVariant(img: Decoded, variant: string): (r: Raster)
    ensures variant == "preview" ==> r == Scale(img, PreviewSize)
    ensures variant != "preview" ==> r == img
  {
    if variant == "preview" then Preview(img) else img
  }

  /** Previewing a preview changes nothing: the long edge is already 384 and
      the short side is already a whole number of pixels. */
  lemma PreviewIdempotent(img: Decoded)
    requires Preview(img).width > 0 && Preview(img).height > 0
    ensures Preview(Preview(img)) == Preview(img)
  {
    var p := Preview(img);
    var q := Preview(p);
    if img.width > img.height {
      assert p.height < PreviewSize by {
        assert p.height * img.width <= img.height * PreviewSize < img.width * PreviewSize;
      }
      assert q.height * PreviewSize <= p.height * PreviewSize < (q.height + 1) * PreviewSize;
    } else {
      assert q.width * PreviewSize <= p.width * PreviewSize < (q.width + 1) * PreviewSize;
    }
  }

  // ---------------------------------------------------------------------------
  // FixAllFiles
  // ---------------------------------------------------------------------------

  datatype Decoder = PngDecoder | JpegDecoder | WebpDecoder

  /** The decoder FixAllFiles' switch picks for an extension, as written:
      the WebP label lacks its dot. */
  function FixDecoderAsWritten(ext: string): (d: Option<Decoder>)
    ensures d == Some(PngDecoder) <==> ext == ".png"
    ensures d == Some(JpegDecoder) <==> ext == ".jpg" || ext == ".jpeg"
    ensures d == Some(WebpDecoder) <==> ext == "webp"
  {
    if ext == ".png" then Some(PngDecoder)
    else if ext == ".jpg" || ext == ".jpeg" then Some(JpegDecoder)
    else if ext == "webp" then Some(WebpDecoder)
    else None
  }

  /** As written, no path ever reaches the WebP decoder: Ext yields either ""
      or a string starting with '.', never "webp". */
  lemma FixDecoderAsWrittenSkipsWebp(path: string)
    ensures FixDecoderAsWritten(Ext(path)) != Some(WebpDecoder)
    ensures FixDecoderAsWritten(Ext("photo.webp")) == None
  {
    assert Ext("photo.webp") == ".webp" by {
      assert "photo" + ".webp" == "photo.webp";
      ExtOfSuffix("photo", ".webp");
    }
  }

  /** The decoder choice with the WebP label spelled as an extension. */
  function FixDecoder(ext: string): (d: Option<Decoder>)
    ensures d == Some(PngDecoder) <==> ext == ".png"
    ensures d == Some(JpegDecoder) <==> ext == ".jpg" || ext == ".jpeg"
    ensures d == Some(WebpDecoder) <==> ext == ".webp"
  {
    if ext == ".png" then Some(PngDecoder)
    else if ext == ".jpg" || ext == ".jpeg" then Some(JpegDecoder)
    else if ext == ".webp" then Some(WebpDecoder)
    else None
  }

  /** What the walk sees at one path, and how the I/O around it goes. */
  datatype WalkEntry = WalkEntry(
    path: string,
    walkError: bool,          // the walk reports an error for this path
    isDir: bool,
    opens: bool,              // os.Open succeeds
    decoded: Option<Decoded>, // what the chosen decoder makes of the bytes
    writes: bool)             // os.Create and png.Encode of the output succeed

  /** One rewrite: `source` decoded with `decoder`, re-encoded as PNG at `target`. */
  datatype Conversion = Conversion(source: string, target: string, decoder: Decoder, image: Decoded)

  datatype EntryStep = Skip | Fatal | Convert(c: Conversion)

  /** The output path: the input with its extension cut off. */
  function StripExt(path: string): (stripped: string)
    ensures stripped + Ext(path) == path
  {
    ExtStripRestores(path);
    path[..|path| - |Ext(path)|]
  }

  /** The walk callback for one path; `pick` is the decoder switch. */
  function FixEntry(pick: string -> Option<Decoder>, e: WalkEntry): (s: EntryStep)
    ensures s.Convert? <==>
      !e.walkError && !e.isDir && e.opens && pick(Ext(e.path)).Some? && e.decoded.Some? && e.writes
    ensures s == Skip <==> !e.walkError && (e.isDir || (e.opens && pick(Ext(e.path)).None?))
    ensures s.Convert? ==>
      s.c.source == e.path && s.c.target + Ext(e.path) == e.path &&
      Some(s.c.decoder) == pick(Ext(e.path)) && Some(s.c.image) == e.decoded
  {
    if e.walkError then Fatal
    else if e.isDir then Skip
    else if !e.opens then Fatal
    else match pick(Ext(e.path))
      case None => Skip
      case Some(d) =>
        match e.decoded
        case None => Fatal
        case Some(img) => if e.writes then Convert(Conversion(e.path, StripExt(e.path), d, img)) else Fatal
  }

  /** The conversions done, in walk order, and whether the walk died (the
      process then exits through log.Fatalf; earlier conversions stay). */
  datatype FixRun = FixRun(conversions: seq<Conversion>, fatal: bool)

  /** The walk over the entries it visits, in visiting order: an error
      returned by the callback ends the walk. */
  function FixWalk(pick: string -> Option<Decoder>, entries: seq<WalkEntry>): (r: FixRun)
    ensures |r.conversions| <= |entries|
    ensures !r.fatal ==> forall j :: 0 <= j < |entries| ==> FixEntry(pick, entries[j]) != Fatal
    decreases |entries|
  {
    if |entries| == 0 then FixRun([], false)
    else
      var rest := FixWalk(pick, entries[1..]);
      assert forall j :: 1 <= j < |entries| ==> entries[j] == entries[1..][j - 1];
      match FixEntry(pick, entries[0])
      case Fatal => FixRun([], true)
      case Skip => rest
      case Convert(c) => FixRun([c] + rest.conversions, rest.fatal)
  }

  /** The position of the first entry the callback fails on, or the number
      of entries when it fails on none. */
  function FirstFatal(pick: string -> Option<Decoder>, entries: seq<WalkEntry>): (n: nat)
    ensures n <= |entries|
    ensures n < |entries| ==> FixEntry(pick, entries[n]) == Fatal
    ensures forall j :: 0 <= j < n ==> FixEntry(pick, entries[j]) != Fatal
    decreases |entries|
  {
    if |entries| == 0 then 0
    else if FixEntry(pick, entries[0]) == Fatal then 0
    else
      var m := FirstFatal(pick, entries[1..]);
      assert forall j :: 1 <= j < m + 1 ==> entries[j] == entries[1..][j - 1];
      m + 1
  }

  /** The reference: what the callback converts, entry by entry, in walk
      order, as if no entry stopped the walk. */
  function Converted(pick: string -> Option<Decoder>, entries: seq<WalkEntry>): (cs: seq<Conversion>)
    ensures |cs| <= |entries|
    ensures forall c :: c in cs ==>
      c.target + Ext(c.source) == c.source && pick(Ext(c.source)) == Some(c.decoder)
    decreases |entries|
  {
    if |entries| == 0 then []
    else
      var rest := Converted(pick, entries[1..]);
      match FixEntry(pick, entries[0])
      case Convert(c) => [c] + rest
      case _ => rest
  }

  /** Every entry the callback converts contributes its conversion. */
  lemma {:induction false} ConvertedComplete(pick: string -> Option<Decoder>, entries: seq<WalkEntry>, j: nat)
    requires j < |entries|
    ensures FixEntry(pick, entries[j]).Convert? ==> FixEntry(pick, entries[j]).c in Converted(pick, entries)
    decreases |entries|
  {
    var rest := Converted(pick, entries[1..]);
    if j > 0 {
      assert entries[1..][j - 1] == entries[j];
      ConvertedComplete(pick, entries[1..], j - 1);
      if FixEntry(pick, entries[0]).Convert? {
        assert Converted(pick, entries) == [FixEntry(pick, entries[0]).c] + rest;
      } else {
        assert Converted(pick, entries) == rest;
      }
    } else if FixEntry(pick, entries[0]).Convert? {
      assert Converted(pick, entries) == [FixEntry(pick, entries[0]).c] + rest;
    }
  }

  /** Every reference conversion comes from an entry the callback converts. */
  lemma {:induction false} ConvertedSound(pick: string -> Option<Decoder>, entries: seq<WalkEntry>, c: Conversion)
    ensures c in Converted(pick, entries) ==>
      exists j :: 0 <= j < |entries| && FixEntry(pick, entries[j]) == Convert(c)
    decreases |entries|
  {
    if |entries| > 0 && c in Converted(pick, entries) {
      if FixEntry(pick, entries[0]) == Convert(c) {
        assert FixEntry(pick, entries[0]) == Convert(c);
      } else {
        assert c in Converted(pick, entries[1..]);
        ConvertedSound(pick, entries[1..], c);
        var j :| 0 <= j < |entries[1..]| && FixEntry(pick, entries[1..][j]) == Convert(c);
        assert entries[j + 1] == entries[1..][j];
      }
    }
  }

  /** The walk dies exactly at the first entry the callback fails on, and
      by then it has done the reference conversions of the entries before
      that one, in order. */
  lemma {:induction false} FixWalkAgrees(pick: string -> Option<Decoder>, entries: seq<WalkEntry>)
    ensures FixWalk(pick, entries).fatal <==> FirstFatal(pick, entries) < |entries|
    ensures FixWalk(pick, entries).conversions == Converted(pick, entries[..FirstFatal(pick, entries)])
    decreases |entries|
  {
    if |entries| == 0 {
      assert entries[..0] == [];
    } else if FixEntry(pick, entries[0]) == Fatal {
      assert entries[..0] == [];
    } else {
      FixWalkAgrees(pick, entries[1..]);
      var m := FirstFatal(pick, entries[1..]);
      var prefix := entries[..m + 1];
      assert prefix[0] == entries[0];
      assert prefix[1..] == entries[1..][..m];
    }
  }

  /** The walk dies exactly when the callback fails on some entry. */
  lemma FixWalkFatalIff(pick: string -> Option<Decoder>, entries: seq<WalkEntry>)
    ensures FixWalk(pick, entries).fatal <==> exists j :: 0 <= j < |entries| && FixEntry(pick, entries[j]) == Fatal
  {
    FixWalkAgrees(pick, entries);
    var n := FirstFatal(pick, entries);
    if n < |entries| {
      assert FixEntry(pick, entries[n]) == Fatal;
    }
  }

  /** Every conversion done stems from an entry before the first failing
      one that the callback converts. */
  lemma FixWalkSound(pick: string -> Option<Decoder>, entries: seq<WalkEntry>, c: Conversion)
    ensures c in FixWalk(pick, entries).conversions ==>
      exists j :: 0 <= j < FirstFatal(pick, entries) && FixEntry(pick, entries[j]) == Convert(c)
  {
    FixWalkAgrees(pick, entries);
    var n := FirstFatal(pick, entries);
    ConvertedSound(pick, entries[..n], c);
    if c in FixWalk(pick, entries).conversions {
      var j :| 0 <= j < n && FixEntry(pick, entries[..n][j]) == Convert(c);
      assert entries[..n][j] == entries[j];
    }
  }

  /** Every entry before the first failing one that the callback converts
      is converted, whether or not the walk dies later. */
  lemma FixWalkComplete(pick: string -> Option<Decoder>, entries: seq<WalkEntry>, j: nat)
    requires j < |entries|
    ensures j < FirstFatal(pick, entries) && FixEntry(pick, entries[j]).Convert? ==>
      FixEntry(pick, entries[j]).c in FixWalk(pick, entries).conversions
  {
    FixWalkAgrees(pick, entries);
    var n := FirstFatal(pick, entries);
    if j < n {
      assert entries[..n][j] == entries[j];
      ConvertedComplete(pick, entries[..n], j);
    }
  }

  /** FixAllFiles as written.  Every rewrite puts a PNG at the source path
      minus its extension, and the source was a .png, .jpg or .jpeg file:
      .webp files are never converted.  The walk dies exactly when the
      callback fails on some entry. */
  function FixAllFiles(entries: seq<WalkEntry>): (r: FixRun)
    ensures forall c :: c in r.conversions ==>
      c.target + Ext(c.source) == c.source && Ext(c.source) in {".png", ".jpg", ".jpeg"} &&
      c.decoder != WebpDecoder
    ensures r.fatal <==> exists j :: 0 <= j < |entries| && FixEntry(FixDecoderAsWritten, entries[j]) == Fatal
  {
    FixWalkAgrees(FixDecoderAsWritten, entries);
    FixWalkFatalIff(FixDecoderAsWritten, entries);
    var r := FixWalk(FixDecoderAsWritten, entries);
    assert forall c :: c in r.conversions ==> FixDecoderAsWritten(Ext(c.source)) == Some(c.decoder);
    assert forall c :: c in r.conversions ==> Ext(c.source) != "webp" by {
      forall c | c in r.conversions
        ensures Ext(c.source) != "webp"
      {
        FixDecoderAsWrittenSkipsWebp(c.source);
      }
    }
    r
  }

  /** A .webp file the walk can open is skipped as written; with the dotted
      label it is converted when it decodes and its output can be written,
      and otherwise ends the walk. */
  lemma WebpEntryAsWrittenAndCorrected(e: WalkEntry)
    requires Ext(e.path) == ".webp" && !e.walkError && !e.isDir && e.opens
    ensures FixEntry(FixDecoderAsWritten, e) == Skip
    ensures FixEntry(FixDecoder, e).Convert? <==> e.decoded.Some? && e.writes
    ensures FixEntry(FixDecoder, e) == Fatal <==> !(e.decoded.Some? && e.writes)
  {
  }

  /** FixAllFiles with the WebP label corrected: .webp files are converted
      too. */
  function FixAllFilesCorrected(entries: seq<WalkEntry>): (r: FixRun)
    ensures forall c :: c in r.conversions ==>
      c.target + Ext(c.source) == c.source && Ext(c.source) in {".png", ".jpg", ".jpeg", ".webp"} &&
      (c.decoder == WebpDecoder <==> Ext(c.source) == ".webp")
    ensures r.fatal <==> exists j :: 0 <= j < |entries| && FixEntry(FixDecoder, entries[j]) == Fatal
  {
    FixWalkAgrees(FixDecoder, entries);
    FixWalkFatalIff(FixDecoder, entries);
    FixWalk(FixDecoder, entries)
  }
}
