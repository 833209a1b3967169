/** The decision ServeImage (handlers/image.go) takes for a GET of an image:
    validate the requested format, refuse missing, directory and hidden
    files, serve the file as it is when no conversion is asked for, and
    otherwise pick a content type and an encoder.

    The request path has already been joined onto the data directory by the
    caller (filepath.Join is not modelled); ServeImage opens that joined
    path, so it is also the name checked for hidden segments.  The handler's
    call to read the image is a foreign step: its result arrives as `read`. */
module ServeHandler {
  import opened GoLib
  import opened FileTypes
  import opened ImageUtil

  /** Sent on every answer that gets past the not-found checks. */
  const CacheControl: string := "public, max-age=31536000"

  /** JPEG output uses the best quality the encoder offers. */
  const JpegQuality: nat := 100

  datatype Encoder = PngEncoder | JpegEncoder(quality: nat)

  datatype Outcome =
    | BadRequest               // 400 "Unsupported format"
    | NotFound                 // 404 "File not found"
    | ExtensionPanic           // slicing the empty extension panics; the recovery middleware answers 500
    | ServeFile(path: string)  // the file is streamed as it is
    | ReadFailed               // 500 "Error reading image"
    | Encode(enc: Encoder, image: Raster)  // the raster, encoded into the response

  /** The outcome plus the two headers the handler sets itself. */
  datatype Response = Response(outcome: Outcome, cacheControl: Option<string>, contentType: Option<string>)

  /** The HTTP status of an outcome (200 for a served or encoded image). */
  function Status(o: Outcome): nat {
    match o
    case BadRequest => 400
    case NotFound => 404
    case ExtensionPanic => 500
    case ServeFile(_) => 200
    case ReadFailed => 500
    case Encode(_, _) => 200
  }

  /** The MIME type announced for a conversion target. */
  function ContentTypeFor(format: string): (ct: Option<string>)
    ensures ct == Some("image/png") <==> format == "png"
    ensures ct == Some("image/jpeg") <==> format == "jpg" || format == "jpeg"
    ensures ct == Some("image/webp") <==> format == "webp"
    ensures ct.None? <==> format !in {"png", "jpg", "jpeg", "webp"}
  {
    if format == "png" then Some("image/png")
    else if format == "jpg" || format == "jpeg" then Some("image/jpeg")
    else if format == "webp" then Some("image/webp")
    else None
  }

  /** The encoder for a conversion target: there is none for WebP. */
  function EncoderFor(format: string): (enc: Option<Encoder>)
    ensures enc == Some(PngEncoder) <==> format == "png"
    ensures enc == Some(JpegEncoder(JpegQuality)) <==> format == "jpg" || format == "jpeg"
    ensures enc.None? <==> format !in {"png", "jpg", "jpeg"}
  {
    if format == "jpg" || format == "jpeg" then Some(JpegEncoder(JpegQuality))
    else if format == "png" then Some(PngEncoder)
    else None
  }

  /** The path opens, is a regular file, and has no hidden segment. */
  predicate Servable(fs: FileSystem, path: string) {
    path in fs && fs[path].File? && !ContainsDotFile(path)
  }

  /** ServeImage for the joined path `filePath` and the `format` query. */
  function ServeImage(fs: FileSystem, filePath: string, format: string, read: Option<Decoded>): (r: Response)
    ensures format != "" && !Has(SupportedTypes, format) ==> r == Response(BadRequest, None, None)
    ensures r.outcome.ServeFile? ==> r.outcome.path == filePath && Servable(fs, filePath)
    ensures r.outcome.Encode? ==>
      Servable(fs, filePath) && Some(r.outcome.enc) == EncoderFor(format) && read == Some(r.outcome.image)
    ensures r.outcome.Encode? || r.outcome == ReadFailed ==> r.contentType == ContentTypeFor(format)
  {
    if format != "" && !Has(SupportedTypes, format) then Response(BadRequest, None, None)
    else if !Servable(fs, filePath) then Response(NotFound, None, None)
    else
      var ext := Ext(filePath);
      if ext == "" then Response(ExtensionPanic, None, None)
      else
        var extension := ext[1..];
        if format == "" || format == extension then Response(ServeFile(filePath), Some(CacheControl), None)
        else match ContentTypeFor(format)
          case None => Response(BadRequest, Some(CacheControl), None)
          case Some(ct) =>
            match read
            case None => Response(ReadFailed, Some(CacheControl), Some(ct))
            case Some(img) =>
              match EncoderFor(format)
              case None => Response(BadRequest, Some(CacheControl), Some(ct))
              case Some(enc) => Response(Encode(enc, img), Some(CacheControl), Some(ct))
  }

  /** An acceptable (or absent) format on a path that is missing, a
      directory, or hidden gives 404. */
  lemma NotFoundIff(fs: FileSystem, filePath: string, format: string, read: Option<Decoded>)
    requires format == "" || Has(SupportedTypes, format)
    ensures ServeImage(fs, filePath, format, read).outcome == NotFound <==> !Servable(fs, filePath)
  {
  }

  /** A file is streamed as it is exactly when the format check passes, the
      file is servable and has an extension, and either no format is asked
      for or the format equals that extension without its dot. */
  lemma DirectIff(fs: FileSystem, filePath: string, format: string, read: Option<Decoded>)
    ensures ServeImage(fs, filePath, format, read).outcome.ServeFile? <==>
      (format == "" || Has(SupportedTypes, format)) && Servable(fs, filePath) &&
      Ext(filePath) != "" && (format == "" || format == Ext(filePath)[1..])
  {
  }

  /** An image is encoded exactly when the file is servable, the format is
      one of png / jpg / jpeg and differs from the extension, and the image
      could be read.  WebP is never an encoding target. */
  lemma EncodeIff(fs: FileSystem, filePath: string, format: string, read: Option<Decoded>)
    ensures ServeImage(fs, filePath, format, read).outcome.Encode? <==>
      Servable(fs, filePath) && Ext(filePath) != "" && format in {"png", "jpg", "jpeg"} &&
      format != Ext(filePath)[1..] && read.Some?
  {
    if format in {"png", "jpg", "jpeg"} {
      SupportedHasIff(format);
    }
  }

  /** Every answer past the not-found checks carries the one-year cache
      header; the earlier refusals and the panic do not. */
  lemma CacheHeaderIff(fs: FileSystem, filePath: string, format: string, read: Option<Decoded>)
    ensures ServeImage(fs, filePath, format, read).cacheControl.Some? <==>
      (format == "" || Has(SupportedTypes, format)) && Servable(fs, filePath) && Ext(filePath) != ""
    ensures ServeImage(fs, filePath, format, read).cacheControl.Some? ==>
      ServeImage(fs, filePath, format, read).cacheControl == Some(CacheControl)
  {
  }

  /** Every format with a content type passes the suffix test. */
  lemma ContentTypedSupported(format: string)
    requires ContentTypeFor(format).Some?
    ensures Has(SupportedTypes, format)
  {
    if format == "jpg" {
      EachSupportedTypeAccepted(0);
    } else if format == "png" {
      EachSupportedTypeAccepted(1);
    } else if format == "webp" {
      EachSupportedTypeAccepted(3);
    } else {
      EachSupportedTypeAccepted(4);
    }
  }

  /** The request asks for a conversion: the file is servable, has an
      extension, and a format other than that extension is requested. */
  predicate WantsConversion(fs: FileSystem, filePath: string, format: string) {
    Servable(fs, filePath) && Ext(filePath) != "" && format != "" && format != Ext(filePath)[1..]
  }

  /** Past the format, not-found and extension checks, a conversion
      request is answered by the content-type switch, then the read, then
      the encoder switch. */
  lemma ConversionOutcome(fs: FileSystem, filePath: string, format: string, read: Option<Decoded>)
    requires WantsConversion(fs, filePath, format) && (format == "" || Has(SupportedTypes, format))
    ensures var r := ServeImage(fs, filePath, format, read);
      r == (if ContentTypeFor(format).None? then Response(BadRequest, Some(CacheControl), None)
            else if read.None? then Response(ReadFailed, Some(CacheControl), ContentTypeFor(format))
            else if EncoderFor(format).None? then Response(BadRequest, Some(CacheControl), ContentTypeFor(format))
            else Response(Encode(EncoderFor(format).value, read.value), Some(CacheControl), ContentTypeFor(format)))
  {
  }

  /** Outside a conversion request, the answer is one of the early ones:
      400 for a rejected format, 404, the extension panic, or the file
      itself. */
  lemma NonConversionOutcome(fs: FileSystem, filePath: string, format: string, read: Option<Decoded>)
    requires !(WantsConversion(fs, filePath, format) && (format == "" || Has(SupportedTypes, format)))
    ensures var o := ServeImage(fs, filePath, format, read).outcome;
      o == BadRequest || o == NotFound || o == ExtensionPanic || o.ServeFile?
    ensures ServeImage(fs, filePath, format, read).outcome == BadRequest ==>
      ServeImage(fs, filePath, format, read) == Response(BadRequest, None, None)
    ensures ServeImage(fs, filePath, format, read).outcome == ExtensionPanic <==>
      (format == "" || Has(SupportedTypes, format)) && Servable(fs, filePath) && Ext(filePath) == ""
  {
  }

  /** "Error reading image" (500) comes exactly when a conversion to a
      format with a content type is asked for and the image cannot be read. */
  lemma ReadFailedIff(fs: FileSystem, filePath: string, format: string, read: Option<Decoded>)
    ensures ServeImage(fs, filePath, format, read).outcome == ReadFailed <==>
      WantsConversion(fs, filePath, format) && ContentTypeFor(format).Some? && read.None?
  {
    if ContentTypeFor(format).Some? {
      ContentTypedSupported(format);
    }
    if WantsConversion(fs, filePath, format) && (format == "" || Has(SupportedTypes, format)) {
      ConversionOutcome(fs, filePath, format, read);
    } else {
      NonConversionOutcome(fs, filePath, format, read);
    }
  }

  /** The refusals that come after the cache header is set: a format that
      passes the suffix test but has no content type, and WebP once the
      image has been read. */
  lemma LateBadRequestIff(fs: FileSystem, filePath: string, format: string, read: Option<Decoded>)
    ensures ServeImage(fs, filePath, format, read) == Response(BadRequest, Some(CacheControl), None) <==>
      Has(SupportedTypes, format) && WantsConversion(fs, filePath, format) && ContentTypeFor(format).None?
    ensures ServeImage(fs, filePath, format, read) == Response(BadRequest, Some(CacheControl), Some("image/webp")) <==>
      WantsConversion(fs, filePath, format) && format == "webp" && read.Some?
  {
    if format == "webp" {
      ContentTypedSupported(format);
    }
    if WantsConversion(fs, filePath, format) && (format == "" || Has(SupportedTypes, format)) {
      ConversionOutcome(fs, filePath, format, read);
    } else {
      NonConversionOutcome(fs, filePath, format, read);
    }
  }

  /** Every 400 the handler gives: a format the suffix test rejects, a
      conversion target with no content type, or WebP after a read. */
  lemma BadRequestStatusIff(fs: FileSystem, filePath: string, format: string, read: Option<Decoded>)
    ensures Status(ServeImage(fs, filePath, format, read).outcome) == 400 <==>
      (format != "" && !Has(SupportedTypes, format)) ||
      (WantsConversion(fs, filePath, format) &&
       (ContentTypeFor(format).None? || (format == "webp" && read.Some?)))
  {
    if format == "webp" {
      ContentTypedSupported(format);
    }
    if WantsConversion(fs, filePath, format) && (format == "" || Has(SupportedTypes, format)) {
      ConversionOutcome(fs, filePath, format, read);
    } else {
      NonConversionOutcome(fs, filePath, format, read);
    }
  }

  /** Every 500 the handler gives: the extension slice panics on a file
      without extension, or the image cannot be read for a conversion. */
  lemma ServerErrorStatusIff(fs: FileSystem, filePath: string, format: string, read: Option<Decoded>)
    ensures Status(ServeImage(fs, filePath, format, read).outcome) == 500 <==>
      (format == "" || Has(SupportedTypes, format)) && Servable(fs, filePath) &&
      (Ext(filePath) == "" || (WantsConversion(fs, filePath, format) && ContentTypeFor(format).Some? && read.None?))
  {
    if ContentTypeFor(format).Some? {
      ContentTypedSupported(format);
    }
    if WantsConversion(fs, filePath, format) && (format == "" || Has(SupportedTypes, format)) {
      ConversionOutcome(fs, filePath, format, read);
    } else {
      NonConversionOutcome(fs, filePath, format, read);
    }
  }

  /** WebP passes the format check and is announced as image/webp, but
      there is no WebP encoder, so the request is then refused. */
  lemma WebpAnnouncedThenRefused(fs: FileSystem, read: Decoded)
    requires Servable(fs, "img/cat.png")
    ensures ServeImage(fs, "img/cat.png", "webp", Some(read)) ==
      Response(BadRequest, Some(CacheControl), Some("image/webp"))
  {
    CatPngExt();
    SupportedHasIff("webp");
  }

  /** gif passes the format check but has no content type: refused after the
      cache header is set. */
  lemma GifRefusedAfterCacheHeader(fs: FileSystem, read: Decoded)
    requires Servable(fs, "img/cat.png")
    ensures ServeImage(fs, "img/cat.png", "gif", Some(read)) == Response(BadRequest, Some(CacheControl), None)
  {
    CatPngExt();
    SupportedHasIff("gif");
  }

  /** A png file asked for as jpeg is re-encoded at full JPEG quality. */
  lemma PngAsJpeg(fs: FileSystem, read: Decoded)
    requires Servable(fs, "img/cat.png")
    ensures ServeImage(fs, "img/cat.png", "jpeg", Some(read)) ==
      Response(Encode(JpegEncoder(100), read), Some(CacheControl), Some("image/jpeg"))
  {
    CatPngExt();
    SupportedHasIff("jpeg");
  }

  lemma CatPngExt()
    ensures Ext("img/cat.png") == ".png"
  {
    assert "img/cat" + ".png" == "img/cat.png";
    ExtOfSuffix("img/cat", ".png");
  }
}
