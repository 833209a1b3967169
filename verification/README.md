# ImageServer decision logic in Dafny

A model of the pure decision and arithmetic logic of MindustryTool's Go image
server. The HTTP and filesystem plumbing is left aside. The model covers:

- `ContainsDotFile`. A path counts as hidden when one of its `/`-separated
  segments starts with `.`.
- `ReadImage`. It tries a fixed list of source names, refuses a directory or a
  hidden file, and writes a derived "variant" file next to the request.
- `Scale`, `Preview` and `ApplyVariant`. Only the output dimensions are
  modelled.
- `FixAllFiles`, for each file on its walk. It picks a decoder from the
  extension and writes the PNG to the path with the extension cut off.
- The `ServeImage` handler. It checks the format, refuses missing and hidden
  files, serves the file directly when no conversion is needed, and otherwise
  picks a content type and an encoder.
- The supported-format test `ExtSlice.Has`. It matches a suffix, not the
  whole string.
- The `ListDirectory` handler. It drops hidden entries and paginates.
- The `UploadImage` handler. It takes the subtype from the sniffed content
  type, stores PNG bytes as they are or converts everything else to PNG, and
  builds the storage path and the returned URL.

The files are:

- `golib.dfy` (`GoLib`): the Go standard-library pieces the code relies on.
  These are `strings.HasPrefix`, `strings.HasSuffix`, `strings.Split` and its
  inverse `Join`, `filepath.Ext` with `/` as the separator, `strconv.Atoi`
  with its inverse `Itoa`, and 64-bit wrap-around of Go's `int`.
- `filetypes.dfy` (`FileTypes`): models/file.go.
- `imageutil.dfy` (`ImageUtil`): utils/image.go. The filesystem is a map
  from path to node: a directory, or a file together with what `png.Decode`
  makes of its bytes. Go's `os.Open` opens directories too, so a path opens
  exactly when it is in the map. A raster is only its width and height.
- `serve.dfy` (`ServeHandler`): the decision in handlers/image.go.
- `api.dfy` (`ApiHandler`): the listing and upload logic in handlers/api.go.

Behaviours of the code worth knowing:

- The preview long edge is 384 (256 + 128).
- The short side of a scaled image is truncated, not rounded.
- Nothing stops the short side from becoming 0: a 1000×1 image previews as
  384×0.
- A derived file is named `filePath + "." + variant + Ext(filePath)`. The
  extension comes from the requested path, so it can be empty. The file
  always holds PNG data.
- A variant that collapses a side to 0 cannot be encoded as PNG, so
  `ReadImage` then fails after creating the derived file.
- There is no lookup of a previously generated file. There is no
  path-containment check: the request is only passed through `filepath.Join`.
  There is no "created" status for a generated image.

## Model

| member | source | states |
|---|---|---|
| GoLib.Split | utils/image.go:19 | `strings.Split` on `/`: the pieces hold no `/` and join back to the input, which makes the result unique |
| GoLib.SplitJoin | utils/image.go:19 | splitting a join of `/`-free pieces gives the pieces back (the other half of the round trip) |
| GoLib.HasSuffixPrepend | models/file.go:20 | putting any text in front of a string keeps all of its suffixes |
| GoLib.Ext | utils/image.go:126 | `filepath.Ext`: a suffix of the path that is empty exactly when the last element has no `.`; otherwise it starts with that element's last `.` and holds no other `.` or `/` |
| GoLib.ExtStripRestores | utils/image.go:154 | cutting off `Ext(path)` and appending it again gives the path back |
| GoLib.Atoi | handlers/api.go:67 | `strconv.Atoi` succeeds exactly when the text after an optional `+` or `-` is a non-empty run of decimal digits whose signed value fits in an int64, and then returns that signed value |
| GoLib.AtoiExamples | handlers/api.go:67 | `+5`, `007` and `-0` parse to 5, 7 and 0; a lone `-`, `5a` and the empty string are refused |
| GoLib.AtoiRejectsOutOfRange | handlers/api.go:67 | the decimal form of any number outside the int64 range is refused |
| GoLib.AtoiItoa | handlers/api.go:67 | parsing the decimal form of any int64 gives the number back |
| GoLib.Wrap64 | handlers/api.go:80 | a Go `int` result is the int64 that agrees with the exact result modulo 2^64, and is the exact result when that fits |
| FileTypes.Has | models/file.go:18-25 | `Has(list, a)` holds exactly when some element of the list is a suffix of `a` |
| FileTypes.EmptyListAcceptsNothing | models/file.go:18-25 | an empty list accepts nothing |
| FileTypes.HasSuffixClosed | models/file.go:20 | if `a` is accepted, so is `x + a` for any `x` |
| FileTypes.SupportedHasIff | models/file.go:27-34 | for `SupportedTypes`, acceptance means the string ends in jpg, png, gif, webp, jpeg or svg |
| FileTypes.EachSupportedTypeAccepted | models/file.go:27-34 | each listed type is accepted |
| FileTypes.SupportedRejectsEmpty | models/file.go:27-34 | the empty format is not accepted |
| FileTypes.SupportedAcceptsSuffixes | models/file.go:18-34 | "xpng", "apng", "image.jpeg" and "notsvg" are accepted, although none is a format name |
| FileTypes.SupportedRejectsBmp | models/file.go:18-34 | "bmp" ends in none of the six names and is refused |
| FileTypes.SupportedRejectsTrailingSpace | models/file.go:18-34 | "png " is refused: the suffix test is exact |
| ImageUtil.ContainsDotFile | utils/image.go:18-26 | a name is hidden exactly when a `.` is at its start or right after a `/`; empty segments never make it hidden |
| ImageUtil.DotOpensSegmentJoin | utils/image.go:18-26 | the hidden-name rule is local to each side of a `/` |
| ImageUtil.BaseNameHidden | handlers/api.go:53 | a name without `/` is hidden exactly when it starts with `.` |
| ImageUtil.ContainsDotFileJoin | utils/image.go:18-26 | `a/b` is hidden exactly when `a` or `b` is hidden, for any `a` and `b` |
| ImageUtil.FirstExisting | utils/image.go:29-44 | gives the index of the first name that opens, with no earlier name opening; gives none exactly when no name opens |
| ImageUtil.Locate | utils/image.go:29-44 | the name ReadImage opens is the first of `p`, `p.png`, `p.jpg`, `p.webp`, `p.jpeg` that exists; there is none exactly when none of the five exists |
| ImageUtil.ReadImage | utils/image.go:28-74 | a loaded image is the variant transform of the PNG found at the located candidate, which is a visible regular file; a decode error comes exactly when that file is not a PNG; the read succeeds exactly when that file holds a PNG and either no variant is asked for, or the derived file is created and the transformed image, which must have no zero side, is encoded; the create error comes exactly when a variant is asked for and the file cannot be created, and the encode error exactly when it was created but the encoding fails or the transform has a zero side; a derived file is written exactly when the variant is non-empty, at `VariantPath(request, variant)`, holding the returned image |
| ImageUtil.ReadImageNotFoundIff | utils/image.go:29-51 | "file not found" exactly when none of `p`, `p.png`, `p.jpg`, `p.webp`, `p.jpeg` opens, or when the first one that opens is a directory or hidden |
| ImageUtil.ReadImageSearchOrder | utils/image.go:29-53 | the first candidate that opens decides: a visible PNG file there is loaded even if later candidates exist |
| ImageUtil.DirectoryShadowsCandidates | utils/image.go:48-51 | a directory at the requested path gives "file not found" even when `p.png` exists |
| ImageUtil.DegenerateVariantFails | utils/image.go:58-70 | a variant with a zero side makes the request fail with the encoding error, whatever the write would otherwise do, once the derived file could be created |
| ImageUtil.VariantOfExtensionlessRequest | utils/image.go:58-71 | an 800×400 `a/b.png` requested as `a/b` with variant preview is loaded at 384×192 and written to `a/b.preview`, a name with no image extension |
| ImageUtil.HiddenRequestRefused | utils/image.go:29-51 | the request `img/.cat`, with only `img/.cat.png` on disk, finds that candidate but refuses it as hidden |
| ImageUtil.VariantPathShape | utils/image.go:59 | the derived name starts with the request plus `.`, ends with the request's extension, differs from the request, and differs for each variant |
| ImageUtil.VariantPath | utils/image.go:59 | the derived name is the request, a `.`, the variant name, then the request's extension: it keeps the request's extension when there is one, and otherwise a plain variant name becomes its extension |
| ImageUtil.ExtOfSuffix | utils/image.go:59 | a path ending in `.x`, where `x` has no `.` or `/`, has extension `.x` |
| ImageUtil.Scale | utils/image.go:76-94 | if W > H the width becomes `size` and the height is ⌊H·size/W⌋; otherwise the height becomes `size` and the width is ⌊W·size/H⌋; neither side exceeds `size` |
| ImageUtil.ScaledSide | utils/image.go:84-87 | the scaled short side is the floor of short·size/long and is at most `size` |
| ImageUtil.ScaleSquare | utils/image.go:82-88 | a square maps to size×size |
| ImageUtil.ScaleTruncates | utils/image.go:81-90 | 1000×999 previews to 384×383, which shows truncation; 1000×1 previews to 384×0 |
| ImageUtil.Preview | utils/image.go:105-110 | a preview has a side equal to 384 and no side longer than 384 |
| ImageUtil.ApplyVariant | utils/image.go:96-103 | "preview" scales to the 384 long edge; any other variant returns the image unchanged |
| ImageUtil.PreviewIdempotent | utils/image.go:105-110 | previewing a non-degenerate preview again changes nothing |
| ImageUtil.FixDecoderAsWritten | utils/image.go:134-152 | as written, the PNG decoder is chosen exactly for `.png`, JPEG exactly for `.jpg`/`.jpeg`, and WebP exactly for the dotless `webp` |
| ImageUtil.FixDecoderAsWrittenSkipsWebp | utils/image.go:134-152 | as written, no path reaches the WebP decoder; `photo.webp` is skipped |
| ImageUtil.FixDecoder | utils/image.go:134-152 | with the label corrected: PNG decoder exactly for `.png`, JPEG decoder exactly for `.jpg`/`.jpeg`, WebP decoder exactly for `.webp` |
| ImageUtil.StripExt | utils/image.go:154 | the output path plus the input's extension is the input path |
| ImageUtil.FixEntry | utils/image.go:118-165 | for a given decoder switch, an entry is converted exactly when the walk reports no error, it is a file that opens, the switch picks a decoder, it decodes and the output can be written; it is skipped exactly when it is a directory, or it opens and the switch picks nothing; a conversion keeps the source path and decoded image and writes to the path without its extension |
| ImageUtil.FixWalk | utils/image.go:118-170 | a walk that does not die met no failing entry, and makes no more conversions than there are entries |
| ImageUtil.FirstFatal | utils/image.go:118-170 | the position of the first entry the callback fails on: every earlier entry succeeds, and it is the number of entries when none fails |
| ImageUtil.Converted | utils/image.go:118-166 | the reference conversions (one per converted entry, in walk order) all write to the source path without its extension, using the decoder the switch picks for that extension |
| ImageUtil.ConvertedComplete | utils/image.go:118-166 | every entry the callback converts contributes its conversion to the reference |
| ImageUtil.ConvertedSound | utils/image.go:118-166 | every reference conversion comes from an entry the callback converts |
| ImageUtil.FixWalkAgrees | utils/image.go:118-170 | the walk dies exactly when some entry fails, and its conversions are the reference conversions of the entries before the first failing one |
| ImageUtil.FixWalkFatalIff | utils/image.go:118-170 | the walk dies exactly when the callback fails on some entry |
| ImageUtil.FixWalkSound | utils/image.go:118-170 | every conversion made comes from an entry before the first failing one that the callback converts |
| ImageUtil.FixWalkComplete | utils/image.go:118-170 | every entry before the first failing one that the callback converts is converted, even when the walk dies later |
| ImageUtil.FixAllFiles | utils/image.go:112-171 | as written, every conversion's source is a `.png`, `.jpg` or `.jpeg` file, its decoder is never WebP, and its target is the source without the extension; the walk dies exactly when the callback fails on some entry |
| ImageUtil.WebpEntryAsWrittenAndCorrected | utils/image.go:134-152 | a `.webp` file that opens is skipped as written; with the corrected label it is converted exactly when it decodes and its output can be written, and otherwise ends the walk |
| ImageUtil.FixAllFilesCorrected | utils/image.go:112-171 | with the corrected label, conversions come from `.png`, `.jpg`, `.jpeg` or `.webp` files, and the WebP decoder is used exactly for `.webp`; the walk dies exactly when the callback fails on some entry |
| ServeHandler.ContentTypeFor | handlers/image.go:61-71 | png gives image/png, jpg and jpeg give image/jpeg, webp gives image/webp, and any other format gives nothing |
| ServeHandler.EncoderFor | handlers/image.go:80-93 | png gives the PNG encoder, jpg and jpeg give JPEG at quality 100, and anything else (webp included) gives none |
| ServeHandler.ServeImage | handlers/image.go:26-94 | a non-empty format rejected by `Has` gives 400 with no headers, whatever is on disk; only a servable file is streamed or encoded; an encoding uses the format's encoder on the image that was read, announced with the format's content type |
| ServeHandler.NotFoundIff | handlers/image.go:36-47 | once the format check passes, 404 comes exactly when the path is missing, a directory or hidden |
| ServeHandler.DirectIff | handlers/image.go:49-58 | the file is streamed as it is exactly when the format passes, the file is servable and has an extension, and the format is empty or equals that extension |
| ServeHandler.EncodeIff | handlers/image.go:61-93 | an image is encoded exactly when the file is servable and has an extension, the format is png, jpg or jpeg and differs from the extension, and the read succeeded |
| ServeHandler.CacheHeaderIff | handlers/image.go:49-52 | the one-year public Cache-Control header is set exactly on answers that get past the format, not-found and extension steps |
| ServeHandler.ReadFailedIff | handlers/image.go:73-76 | "Error reading image" comes exactly when a servable file with an extension is asked for a different format that has a content type, and the image cannot be read |
| ServeHandler.LateBadRequestIff | handlers/image.go:52-93 | after the cache header, a format that passes the suffix test but has no content type is refused with no content type; webp is refused, announced as image/webp, exactly when a conversion to it was asked for and the image was read |
| ServeHandler.BadRequestStatusIff | handlers/image.go:30-93 | the handler answers 400 exactly for a non-empty format the suffix test rejects, or a conversion to a format with no content type, or a conversion to webp of an image that was read |
| ServeHandler.ServerErrorStatusIff | handlers/image.go:30-76 | the handler answers 500 exactly when a servable file that passed the format check has no extension (the slice panics), or a conversion to a format with a content type cannot read the image |
| ServeHandler.WebpAnnouncedThenRefused | handlers/image.go:61-93 | `format=webp` on a PNG is announced as image/webp and then refused with 400 |
| ServeHandler.GifRefusedAfterCacheHeader | handlers/image.go:52-71 | `format=gif` passes `Has` but is refused with 400 after the cache header is set |
| ServeHandler.PngAsJpeg | handlers/image.go:80-84 | a PNG requested as jpeg is encoded as JPEG at quality 100 and announced as image/jpeg |
| ApiHandler.Listing | handlers/api.go:47-62 | the listing is no longer than the directory and holds no hidden name |
| ApiHandler.ListingAppend | handlers/api.go:48-62 | listing two runs of entries lists each run in turn, so directory order is kept |
| ApiHandler.ListingMember | handlers/api.go:47-62 | a record is listed exactly when it belongs to an entry whose info is readable and whose name is not hidden |
| ApiHandler.PageSize | handlers/api.go:64-70 | the page size is the parsed `size` when that parses to a positive number, and 10 otherwise |
| ApiHandler.PageNumber | handlers/api.go:72-78 | the page number is the parsed `page` when that parses to a number ≥ 0, and 0 otherwise |
| ApiHandler.PageQueriesRoundTrip | handlers/api.go:64-78 | any valid page, or any valid positive size, written in decimal is read back; an empty or non-numeric query falls back to size 10 or page 0 |
| ApiHandler.PageQueriesFallBack | handlers/api.go:64-78 | a size ≤ 0 falls back to 10, and a negative page falls back to 0 |
| ApiHandler.Page | handlers/api.go:80-91 | a page is empty exactly when page·size ≥ length; otherwise it holds at most `size` elements, element k being all[page·size + k] |
| ApiHandler.PageWithin | handlers/api.go:91 | a page holds only elements of the listing |
| ApiHandler.PagePosition | handlers/api.go:80-91 | element i is on page i / size, at offset i % size |
| ApiHandler.PagesDisjoint | handlers/api.go:80-91 | distinct pages cover disjoint index ranges |
| ApiHandler.PagesArePrefix | handlers/api.go:80-91 | pages 0 to n-1, concatenated in order, are exactly the first min(n·size, length) elements |
| ApiHandler.ListDirectory | handlers/api.go:33-92 | 404 exactly when the directory cannot be read; a panic (answered 500) exactly when the handler's int64 slice of the listing panics; whenever page·size + size fits in an int64, the answer is exactly `Page` of the listing at the requested page and size; any page holds at most `size` records, all from the listing and none hidden |
| ApiHandler.PageAsWritten | handlers/api.go:80-91 | with `s` the int64-wrapped page·size: an empty page when `s` reaches the length; otherwise, when `s` is non-negative and `s + size` does not overflow, the elements from `s` up to `s + size` clipped to the length; a panic exactly when `s` is below the length and either negative or too close to the int64 limit to add `size`; never more than `size` elements, all from the listing |
| ApiHandler.ListDirectoryCorrected | handlers/api.go:33-92 | with exact arithmetic the handler never panics, and a page is empty exactly when page·size reaches the listing's length |
| ApiHandler.ListDirectoryOverflowShowsFirstPage | handlers/api.go:64-91 | `size=4&page=4611686018427387904` over five records answers with the first four, where the corrected handler answers with none |
| ApiHandler.ListDirectoryOverflowPanics | handlers/api.go:64-91 | `size=9223372036854775807&page=2` over three records makes the slice panic, where the corrected handler answers with an empty page |
| ApiHandler.PageAsWrittenAgrees | handlers/api.go:80-91 | when page·size + size fits in an int64, the handler's int arithmetic gives `Page` |
| ApiHandler.PageOverflowShowsFirstPage | handlers/api.go:80 | page 2^62 with size 4 wraps to start 0 and returns the first four items, where `Page` returns none |
| ApiHandler.PageOverflowPanics | handlers/api.go:80-91 | page 2 with size 2^63-1 wraps to start -2, and the slice panics |
| ApiHandler.PageOverflowStraddles | handlers/api.go:80-91 | page 0x5555555555555556 of size 3 wraps to start 2, so over six elements the handler answers with the last element of page 0 and the first two of page 1, where the intended page is empty |
| ApiHandler.UploadFormat | handlers/api.go:145 | the format is the text after the first `/` up to the next `/` or the end, and holds no `/` |
| ApiHandler.UploadImage | handlers/api.go:108-191 | an empty folder gives 400 and nothing is written; bytes are stored at `Join(Join(root, folder), id)`; they are stored as they are exactly for png and re-encoded as PNG otherwise; the URL is `path.Join(base, folder, id + "." + format)`; the upload is answered 201 exactly when every step up to the file write goes through (folder, form file, open, read, the 512-byte reslice, accepted subtype, decode and re-encode for a non-png subtype only, create, write) and the domain parses, and refused for the domain exactly when only the domain fails; a file is stored exactly on success or on a bad domain |
| ApiHandler.UploadRejectsUnsupported | handlers/api.go:145-150 | with no failing I/O step, a non-empty subtype that `Has` rejects gives 400 and nothing is stored |
| ApiHandler.UploadClientErrorIff | handlers/api.go:108-150 | the upload is answered 400 exactly for an empty folder, a missing form file once the folder was created, or a rejected non-empty subtype once the upload was read and sniffed; every other refusal is 500 |
| ApiHandler.UploadSucceeds | handlers/api.go:152-190 | with no failing I/O, an accepted subtype that decodes (or is png) is answered with the URL carrying the subtype |
| ApiHandler.ConvertedUploadKeepsSubtypeInUrl | handlers/api.go:154-189 | a converted upload is stored as PNG under the bare id, while its URL ends in `.` plus the subtype |
| ApiHandler.JpegUploadStoredAsPng | handlers/api.go:143-189 | an image/jpeg upload in folder maps with id m1 is stored as PNG at `Join(Join(root, "maps"), "m1")` and answered with a URL ending `m1.jpeg` |

## Left out

- HTTP plumbing is left out: gin context handling, JSON bodies, route setup
  in main.go, and the authentication and CORS middleware. The status code is
  recorded by the outcome constructors.
- Configuration loading (config/config.go) is left out. The data directory
  and the domain's URL path are parameters.
- Pixel work is left out: PNG, JPEG and WebP decoding and encoding, and
  bilinear resampling. These are foreign library calls. A raster is its
  dimensions. What a decoder makes of a file's bytes, and whether an encode
  or a file write succeeds, are inputs. That `ReadImage` always uses the PNG
  decoder (utils/image.go:53) shows up only in `Node.File`'s `png` field.
- Filesystem effects are left out: opening, creating, walking, `MkdirAll`,
  and deleting. `DeleteFile` and `CreateDirectory` are left out: they are
  filesystem effects with a small decision (404 when `os.Stat` fails, then
  `RemoveAll` for a directory or `Remove` for a file, 500 when that fails;
  500 when `MkdirAll` fails).
- `filepath.Join` and `path.Join` are function parameters and are never
  inspected. The code never checks that a joined path stays under the data
  directory, and the model claims no such thing.
- ServeHandler.ServeImage: the request path is taken as already joined to the
  data directory, because the join is opaque. The image the handler reads is
  an input `Option`, because handlers/image.go:73 calls `ReadImage` with one
  argument where utils/image.go:28 takes two. An error while encoding into
  the response is not modelled.
- ImageUtil.Scale: Go computes the short side in float64 and truncates. The
  model uses integer floor division. The two agree whenever side·size is
  below 2^52, which covers every realistic image. A 0×0 raster is excluded
  because Go would compute 0/0.
- ImageUtil.Scale: `size` is a natural number. The only caller passes 384.
- ImageUtil.FixAllFiles: `filepath.Walk`'s visiting order is the order of the
  input sequence. `log.Fatalf` is the `fatal` flag.
- Paths are compared as strings, with no cleaning: `img/` and `img` are
  different keys of the filesystem map, while a real filesystem treats them
  as the same directory.
- ImageUtil.ReadImage: the empty derived file left behind when the PNG
  encoding fails is not recorded in the outcome.
- ApiHandler.UploadFormat requires a `/` in the content type, because the
  code indexes the second piece. The sniffer always returns a type/subtype
  pair. The sniffing itself is an input.
- ApiHandler.UploadImage: when `os.Create` succeeds and `Write` fails, the
  created (possibly truncated) file stays on disk; the model records no
  stored file for that case.
- ApiHandler.UploadImage: the sniffing itself (`http.DetectContentType`) is
  an input, the upload's `contentType`. Whether `fileBytes[0:512]` panics on
  an upload shorter than 512 bytes depends on the capacity of the slice
  `io.ReadAll` returns, which is up to the Go runtime; the model takes it as
  the failing step `SniffSlice`, which has effect only on such short
  uploads. The URL's scheme and host are not modelled; only its path is.
- `os.ReadDir` is an input: its entries, or a failure.

## Findings

| source | as written | input that shows it | evidently intended | confidence | as-written member | corrected member |
|---|---|---|---|---|---|---|
| utils/image.go:145 | the WebP case label is `"webp"`, but `filepath.Ext` returns `".webp"`, so this case never matches | a walk over `photo.webp` skips the file | `.webp` files are decoded with the WebP decoder and rewritten as PNG | high; not executed | ImageUtil.FixDecoderAsWrittenSkipsWebp | ImageUtil.FixAllFilesCorrected |
| handlers/api.go:80 | `start := page * pageSize` is a 64-bit int and wraps | `page=4611686018427387904&size=4` on a 5-entry directory returns entries 0 to 3 | a page past the end is empty | high; not executed | ApiHandler.ListDirectoryOverflowShowsFirstPage | ApiHandler.ListDirectoryCorrected |

`FixAllFiles` and `ListDirectory` model the code as written. Their
corrected counterparts are `FixAllFilesCorrected`, which picks decoders with
`FixDecoder`, and `ListDirectoryCorrected`, which cuts pages with `Page` in
exact arithmetic. `WebpEntryAsWrittenAndCorrected` and
`ListDirectoryOverflowShowsFirstPage` show where each pair differs.
`ListDirectory`'s contract shows that the two listings agree whenever
nothing overflows.
