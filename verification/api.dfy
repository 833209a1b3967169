/** The logic of two handlers of handlers/api.go: the directory listing
    (hidden-entry filtering and pagination) and the image upload (format
    detection, passthrough or PNG conversion, where the bytes go and which
    URL is handed back).

    Path joining is the platform's business: filepath.Join and path.Join
    are parameters, never inspected.  Reading the directory, the upload's
    I/O and the domain parse are inputs (what they return, or which step
    fails). */
module ApiHandler {
  import opened GoLib
  import opened FileTypes
  import opened ImageUtil

  // ---------------------------------------------------------------------------
  // ListDirectory: filtering
  // ---------------------------------------------------------------------------

  /** What file.Info() reports for a directory entry. */
  datatype Info = Info(name: string, size: int, modTime: int, isDir: bool)

  /** One entry of os.ReadDir; `info` is None when file.Info() fails. */
  datatype DirEntry = DirEntry(info: Option<Info>)

  /** One record of the JSON listing. */
  datatype FileInfo = FileInfo(name: string, path: string, size: int, modTime: int, isDir: bool)

  /** The record for an entry listed under `dirPath`. */
  function Record(dirPath: string, i: Info, join: (string, string) -> string): FileInfo {
    FileInfo(i.name, join(dirPath, i.name), i.size, i.modTime, i.isDir)
  }

  /** An entry is listed when its info is readable and its name is not hidden. */
  predicate Listed(e: DirEntry) {
    e.info.Some? && !ContainsDotFile(e.info.value.name)
  }

  /** The records of the listed entries, in directory order. */
  function Listing(dirPath: string, entries: seq<DirEntry>, join: (string, string) -> string): (r: seq<FileInfo>)
    ensures |r| <= |entries|
    ensures forall k :: 0 <= k < |r| ==> !ContainsDotFile(r[k].name)
    decreases |entries|
  {
    if |entries| == 0 then []
    else
      var e := entries[0];
      var rest := Listing(dirPath, entries[1..], join);
      if Listed(e) then [Record(dirPath, e.info.value, join)] + rest else rest
  }

  /** Listing two runs of entries lists each run in turn: the order of the
      directory is kept. */
  lemma {:induction false} ListingAppend(dirPath: string, a: seq<DirEntry>, b: seq<DirEntry>, join: (string, string) -> string)
    ensures Listing(dirPath, a + b, join) == Listing(dirPath, a, join) + Listing(dirPath, b, join)
    decreases |a|
  {
    if |a| > 0 {
      assert (a + b)[1..] == a[1..] + b;
      ListingAppend(dirPath, a[1..], b, join);
    } else {
      assert a + b == b;
    }
  }

  /** A record is listed exactly when it is the record of a listed entry. */
  lemma {:induction false} ListingMember(dirPath: string, entries: seq<DirEntry>, join: (string, string) -> string, x: FileInfo)
    ensures x in Listing(dirPath, entries, join) <==>
      exists k :: 0 <= k < |entries| && Listed(entries[k]) && x == Record(dirPath, entries[k].info.value, join)
    decreases |entries|
  {
    if |entries| > 0 {
      ListingMember(dirPath, entries[1..], join, x);
      if exists k :: 0 <= k < |entries[1..]| && Listed(entries[1..][k]) && x == Record(dirPath, entries[1..][k].info.value, join) {
        var k :| 0 <= k < |entries[1..]| && Listed(entries[1..][k]) && x == Record(dirPath, entries[1..][k].info.value, join);
        assert entries[k + 1] == entries[1..][k];
      }
      if exists k :: 0 <= k < |entries| && Listed(entries[k]) && x == Record(dirPath, entries[k].info.value, join) {
        var k :| 0 <= k < |entries| && Listed(entries[k]) && x == Record(dirPath, entries[k].info.value, join);
        if k > 0 {
          assert entries[1..][k - 1] == entries[k];
        }
      }
    }
  }

  // ---------------------------------------------------------------------------
  // ListDirectory: page and size parameters
  // ---------------------------------------------------------------------------

  const DefaultPageSize: nat := 10

  /** The `size` query: a positive integer, or 10. */
  function PageSize(query: string): (n: nat)
    ensures 0 < n <= MaxInt64
    ensures Atoi(query).Some? && Atoi(query).value > 0 ==> n == Atoi(query).value
    ensures !(Atoi(query).Some? && Atoi(query).value > 0) ==> n == DefaultPageSize
  {
    if query != "" && Atoi(query).Some? && Atoi(query).value > 0 then Atoi(query).value else DefaultPageSize
  }

  /** The `page` query: a non-negative integer, or 0. */
  function PageNumber(query: string): (n: nat)
    ensures n <= MaxInt64
    ensures Atoi(query).Some? && Atoi(query).value >= 0 ==> n == Atoi(query).value
    ensures !(Atoi(query).Some? && Atoi(query).value >= 0) ==> n == 0
  {
    if query != "" && Atoi(query).Some? && Atoi(query).value >= 0 then Atoi(query).value else 0
  }

  /** Any valid query is read back as written; anything else falls back. */
  lemma PageQueriesRoundTrip(n: int)
    requires 0 <= n <= MaxInt64
    ensures PageNumber(Itoa(n)) == n
    ensures n > 0 ==> PageSize(Itoa(n)) == n
    ensures PageSize("") == DefaultPageSize && PageNumber("") == 0
    ensures PageSize("ten") == DefaultPageSize && PageNumber("x") == 0
  {
    AtoiItoa(n);
    assert !IsDigit('t') && !IsDigit('x');
  }

  /** Zero and negative sizes, and negative pages, fall back to the defaults. */
  lemma PageQueriesFallBack(n: int)
    requires MinInt64 <= n <= 0
    ensures PageSize(Itoa(n)) == DefaultPageSize
    ensures n < 0 ==> PageNumber(Itoa(n)) == 0
  {
    AtoiItoa(n);
  }

  // ---------------------------------------------------------------------------
  // ListDirectory: pagination
  // ---------------------------------------------------------------------------

  function Min(a: int, b: int): int {
    if a <= b then a else b
  }

  /** One page of `all`: the slice from page*size, at most `size` long; empty
      once the start is at or past the end. */
  function Page<T>(all: seq<T>, page: nat, size: nat): (r: seq<T>)
    requires size > 0
    ensures page * size >= |all| <==> r == []
    ensures |r| <= size
    ensures forall k :: 0 <= k < |r| ==> page * size + k < |all| && r[k] == all[page * size + k]
  {
    var start := page * size;
    if start >= |all| then [] else all[start..Min(start + size, |all|)]
  }

  /** A page holds only elements of the listing. */
  lemma PageWithin<T>(all: seq<T>, page: nat, size: nat)
    requires size > 0
    ensures forall k :: 0 <= k < |Page(all, page, size)| ==> Page(all, page, size)[k] in all
  {
    var r := Page(all, page, size);
    forall k | 0 <= k < |r|
      ensures r[k] in all
    {
      assert r[k] == all[page * size + k];
    }
  }

  /** Every element sits on exactly one page, at its offset within it. */
  lemma PagePosition<T>(all: seq<T>, size: nat, i: nat)
    requires size > 0 && i < |all|
    ensures |Page(all, i / size, size)| > i % size
    ensures Page(all, i / size, size)[i % size] == all[i]
  {
    var p := i / size;
    assert p * size + i % size == i;
    assert p * size <= i;
  }

  /** Distinct pages cover disjoint stretches of the listing. */
  lemma PagesDisjoint<T>(all: seq<T>, size: nat, p: nat, q: nat)
    requires size > 0 && p < q
    ensures p * size + |Page(all, p, size)| <= q * size
  {
    assert (p + 1) * size <= q * size by {
      MulMonotone(p + 1, q, size);
    }
  }

  /** Pages 0, 1, ..., n-1 in order. */
  function Pages<T>(all: seq<T>, size: nat, n: nat): seq<T>
    requires size > 0
  {
    if n == 0 then [] else Pages(all, size, n - 1) + Page(all, n - 1, size)
  }

  /** Reading the first n pages in order gives a prefix of the listing:
      nothing is skipped and nothing repeats. */
  lemma {:induction false} PagesArePrefix<T>(all: seq<T>, size: nat, n: nat)
    requires size > 0
    ensures Pages(all, size, n) == all[..Min(n * size, |all|)]
  {
    if n > 0 {
      PagesArePrefix(all, size, n - 1);
      var start := (n - 1) * size;
      assert n * size == start + size;
      if start >= |all| {
        assert Min(n * size, |all|) == |all|;
      } else {
        assert Page(all, n - 1, size) == all[start..Min(start + size, |all|)];
        assert all[..start] + all[start..Min(start + size, |all|)] == all[..Min(n * size, |all|)];
      }
    }
  }

  /** The answer of ListDirectory: 404 when the directory cannot be read,
      a panic in the slice expression (answered 500 by the recovery
      middleware), or one page of the listing. */
  datatype ListResult = DirectoryNotFound | ListPanic | ListPage(items: seq<FileInfo>)

  /** The directory listed for the `path` parameter. */
  function ListedDir(pathParam: string): string {
    if pathParam == "" then "/" else pathParam
  }

  // ---------------------------------------------------------------------------
  // ListDirectory as written: page * size in Go's 64-bit int
  // ---------------------------------------------------------------------------

  /** The pagination as the handler computes it: `start` and `end` are Go
      ints and wrap; a slice whose bounds are out of order or negative
      panics (None). */
  function PageAsWritten<T>(all: seq<T>, page: nat, size: nat): (r: Option<seq<T>>)
    requires page <= MaxInt64 && 0 < size <= MaxInt64
    ensures r.Some? ==> |r.value| <= size && forall k :: 0 <= k < |r.value| ==> r.value[k] in all
    ensures r.None? <==>
      Wrap64(page * size) < |all| && (Wrap64(page * size) < 0 || Wrap64(page * size) + size > MaxInt64)
    ensures Wrap64(page * size) >= |all| ==> r == Some([])
    ensures 0 <= Wrap64(page * size) < |all| && Wrap64(page * size) + size <= MaxInt64 ==>
      r == Some(all[Wrap64(page * size)..Min(Wrap64(page * size) + size, |all|)])
  {
    var start := Wrap64(page * size);
    if start >= |all| then Some([])
    else
      var end0 := Wrap64(start + size);
      var end := if end0 > |all| then |all| else end0;
      if 0 <= start <= end then
        Some(all[start..end])
      else None
  }

  /** ListDirectory: the `path` parameter, what os.ReadDir returns for it
      (None when it fails), and the two queries; the page is cut with the
      handler's int64 arithmetic. */
  function ListDirectory(pathParam: string, readDir: Option<seq<DirEntry>>, sizeQuery: string, pageQuery: string,
                         join: (string, string) -> string): (r: ListResult)
    ensures r == DirectoryNotFound <==> readDir.None?
    ensures r == ListPanic <==>
      readDir.Some? &&
      PageAsWritten(Listing(ListedDir(pathParam), readDir.value, join), PageNumber(pageQuery), PageSize(sizeQuery)).None?
    ensures readDir.Some? && PageNumber(pageQuery) * PageSize(sizeQuery) + PageSize(sizeQuery) <= MaxInt64 ==>
      r == ListPage(Page(Listing(ListedDir(pathParam), readDir.value, join), PageNumber(pageQuery), PageSize(sizeQuery)))
    ensures r.ListPage? ==> |r.items| <= PageSize(sizeQuery)
    ensures r.ListPage? ==> forall k :: 0 <= k < |r.items| ==>
      r.items[k] in Listing(ListedDir(pathParam), readDir.value, join) && !ContainsDotFile(r.items[k].name)
  {
    match readDir
    case None => DirectoryNotFound
    case Some(entries) =>
      var all := Listing(ListedDir(pathParam), entries, join);
      var page := PageNumber(pageQuery);
      var size := PageSize(sizeQuery);
      var cut := PageAsWritten(all, page, size);
      assert page * size + size <= MaxInt64 ==> cut == Some(Page(all, page, size)) by {
        if page * size + size <= MaxInt64 {
          PageAsWrittenAgrees(all, page, size);
        }
      }
      match cut
      case None => ListPanic
      case Some(items) => ListPage(items)
  }

  /** ListDirectory with the page cut in exact arithmetic: never a panic,
      and a page past the end is empty. */
  function ListDirectoryCorrected(pathParam: string, readDir: Option<seq<DirEntry>>, sizeQuery: string, pageQuery: string,
                                  join: (string, string) -> string): (r: ListResult)
    ensures r == DirectoryNotFound <==> readDir.None?
    ensures r != ListPanic
    ensures r.ListPage? ==>
      (PageNumber(pageQuery) * PageSize(sizeQuery) >= |Listing(ListedDir(pathParam), readDir.value, join)| <==> r.items == [])
    ensures r.ListPage? ==> |r.items| <= PageSize(sizeQuery)
    ensures r.ListPage? ==> forall k :: 0 <= k < |r.items| ==>
      r.items[k] in Listing(ListedDir(pathParam), readDir.value, join) && !ContainsDotFile(r.items[k].name)
  {
    match readDir
    case None => DirectoryNotFound
    case Some(entries) =>
      var all := Listing(ListedDir(pathParam), entries, join);
      PageWithin(all, PageNumber(pageQuery), PageSize(sizeQuery));
      ListPage(Page(all, PageNumber(pageQuery), PageSize(sizeQuery)))
  }

  /** Page 2^62 of size 4 over a five-record listing: the handler answers
      with the first four records, the corrected handler with none. */
  lemma ListDirectoryOverflowShowsFirstPage(entries: seq<DirEntry>, join: (string, string) -> string)
    requires |Listing("/", entries, join)| == 5
    ensures ListDirectory("", Some(entries), Itoa(4), Itoa(0x4000_0000_0000_0000), join) ==
      ListPage(Listing("/", entries, join)[..4])
    ensures ListDirectoryCorrected("", Some(entries), Itoa(4), Itoa(0x4000_0000_0000_0000), join) == ListPage([])
  {
    PageQueriesRoundTrip(4);
    PageQueriesRoundTrip(0x4000_0000_0000_0000);
    FirstPageAfterWrap(Listing("/", entries, join));
  }

  /** Over any five elements, page 2^62 of size 4 wraps to the first four. */
  lemma FirstPageAfterWrap<T>(all: seq<T>)
    requires |all| == 5
    ensures PageAsWritten(all, 0x4000_0000_0000_0000, 4) == Some(all[..4])
    ensures Page(all, 0x4000_0000_0000_0000, 4) == []
  {
    assert 0x4000_0000_0000_0000 * 4 == TwoTo64;
    assert Wrap64(TwoTo64) == 0;
    assert Wrap64(0 + 4) == 4;
  }

  /** Page 2 of size 2^63-1 makes the handler's slice panic, where the
      corrected handler answers with an empty page. */
  lemma ListDirectoryOverflowPanics(entries: seq<DirEntry>, join: (string, string) -> string)
    requires |Listing("/", entries, join)| == 3
    ensures ListDirectory("", Some(entries), Itoa(MaxInt64), Itoa(2), join) == ListPanic
    ensures ListDirectoryCorrected("", Some(entries), Itoa(MaxInt64), Itoa(2), join) == ListPage([])
  {
    PageQueriesRoundTrip(MaxInt64);
    PageQueriesRoundTrip(2);
    PanicAfterWrap(Listing("/", entries, join));
  }

  /** Over any three elements, page 2 of size 2^63-1 wraps to a negative
      start and the slice panics. */
  lemma PanicAfterWrap<T>(all: seq<T>)
    requires |all| == 3
    ensures PageAsWritten(all, 2, MaxInt64) == None
    ensures Page(all, 2, MaxInt64) == []
  {
    assert Wrap64(2 * MaxInt64) == -2;
  }

  /** Without overflow the handler's pagination is Page. */
  lemma PageAsWrittenAgrees<T>(all: seq<T>, page: nat, size: nat)
    requires 0 < size && page * size + size <= MaxInt64
    ensures page <= MaxInt64 && size <= MaxInt64
    ensures PageAsWritten(all, page, size) == Some(Page(all, page, size))
  {
    if page > 0 {
      MulMonotone(1, page, size);
    }
  }

  /** Page 2^62 of size 4 wraps to start 0 and returns the first page,
      where the evident intent is an empty page. */
  lemma PageOverflowShowsFirstPage()
    ensures 0x4000_0000_0000_0000 * 4 == TwoTo64
    ensures PageAsWritten([10, 11, 12, 13, 14], 0x4000_0000_0000_0000, 4) == Some([10, 11, 12, 13])
    ensures Page([10, 11, 12, 13, 14], 0x4000_0000_0000_0000, 4) == []
  {
    var all: seq<int> := [10, 11, 12, 13, 14];
    assert 0x4000_0000_0000_0000 * 4 == TwoTo64;
    assert Wrap64(TwoTo64) == 0;
    assert Wrap64(0 + 4) == 4;
    assert all[0..4] == [10, 11, 12, 13];
  }

  /** The wrapped start need not be a multiple of the size: page
      0x5555_5555_5555_5556 of size 3 starts at 2, so over six elements
      the handler answers with a window that straddles pages 0 and 1. */
  lemma PageOverflowStraddles<T>(all: seq<T>)
    requires |all| == 6
    ensures PageAsWritten(all, 0x5555_5555_5555_5556, 3) == Some(all[2..5])
    ensures all[2..5] == Page(all, 0, 3)[2..] + Page(all, 1, 3)[..2]
    ensures Page(all, 0x5555_5555_5555_5556, 3) == []
  {
    assert 0x5555_5555_5555_5556 * 3 == TwoTo64 + 2;
    assert Wrap64(TwoTo64 + 2) == 2;
    assert Page(all, 0, 3) == all[0..3] && Page(all, 1, 3) == all[3..6];
  }

  /** Page 2 of size 2^63-1 wraps to start -2 and the slice panics. */
  lemma PageOverflowPanics()
    ensures PageAsWritten([10, 11, 12], 2, MaxInt64) == None
    ensures Page([10, 11, 12], 2, MaxInt64) == []
  {
    assert Wrap64(2 * MaxInt64) == -2;
  }

  // ---------------------------------------------------------------------------
  // UploadImage
  // ---------------------------------------------------------------------------

  newtype Byte = x: int | 0 <= x < 256

  /** The subtype of a sniffed MIME type: the second '/'-separated piece. */
  function UploadFormat(contentType: string): (format: string)
    requires '/' in contentType
    ensures '/' !in format
    ensures var rest := contentType[IndexOf(contentType, '/') + 1..];
      rest == format || HasPrefix(rest, format + "/")
  {
    var i := IndexOf(contentType, '/');
    var rest := contentType[i + 1..];
    var parts := Split(contentType, '/');
    assert parts == [contentType[..i]] + Split(rest, '/');
    assert parts[1] == Split(rest, '/')[0];
    FirstPiece(rest);
    parts[1]
  }

  /** The first piece of a split is the text up to the first separator. */
  lemma FirstPiece(s: string)
    ensures s == Split(s, '/')[0] || HasPrefix(s, Split(s, '/')[0] + "/")
  {
    var parts := Split(s, '/');
    if |parts| > 1 {
      assert JoinWith(parts, '/') == parts[0] + "/" + JoinWith(parts[1..], '/');
      assert s[..|parts[0]| + 1] == parts[0] + "/";
    }
  }

  /** The upload steps whose failure is decided outside the handler.
      SniffSlice stands for `fileBytes[0:512]` panicking: that happens only
      for an upload shorter than 512 bytes, and only when the slice
      io.ReadAll returns has a capacity below 512, which is up to the Go
      runtime. */
  datatype IoStep =
    | MakeFolder | FormFile | OpenUpload | ReadUpload | SniffSlice | EncodePng | CreateFile | WriteFile | ParseDomain

  datatype UploadError =
    | InvalidFolder | FolderCreateFailed | NoFile | OpenFailed | ReadFailed
    | SniffPanic | UnsupportedFormat | DecodeFailed | EncodeFailed | CreateFailed | WriteFailed | BadDomain

  /** 400 for the caller's mistakes, 500 for the rest. */
  function UploadStatus(e: UploadError): nat {
    if e == InvalidFolder || e == NoFile || e == UnsupportedFormat then 400 else 500
  }

  /** What is written to disk: the upload itself, or its re-encoding as PNG. */
  datatype Payload = Verbatim(bytes: seq<Byte>) | ReencodedPng(image: Decoded)

  datatype Stored = Stored(path: string, payload: Payload)

  datatype Reply = Created(urlPath: string) | Refused(error: UploadError)

  /** What the upload leaves on disk and what it answers. */
  datatype UploadResult = UploadResult(stored: Option<Stored>, reply: Reply)

  /** The form fields and the upload's bytes, with the content type the
      sniffer reports for them and what image.Decode makes of them. */
  datatype Upload = Upload(folder: string, id: string, bytes: seq<Byte>, contentType: string, decoded: Option<Decoded>)

  /** The reslice for the content sniffer panics (answered 500 by the
      recovery middleware). */
  predicate SniffPanics(u: Upload, failing: set<IoStep>) {
    SniffSlice in failing && |u.bytes| < 512
  }

  /** Every step up to and including the file write goes through: the
      folder is named and created, the upload is received, read and
      sniffed, its subtype is accepted, a non-png upload decodes and
      re-encodes, and the file is created and written. */
  predicate WritesFile(u: Upload, failing: set<IoStep>)
    requires '/' in u.contentType
  {
    u.folder != "" && MakeFolder !in failing && FormFile !in failing && OpenUpload !in failing &&
    ReadUpload !in failing && !SniffPanics(u, failing) &&
    (UploadFormat(u.contentType) == "" || Has(SupportedTypes, UploadFormat(u.contentType))) &&
    (UploadFormat(u.contentType) != "png" ==> u.decoded.Some? && EncodePng !in failing) &&
    CreateFile !in failing && WriteFile !in failing
  }

  /** UploadImage: `root` is the data directory, `basePath` the path of the
      configured domain, `failing` the I/O steps that fail. */
  function UploadImage(u: Upload, root: string, basePath: string, failing: set<IoStep>,
                       fileJoin: (string, string) -> string, urlJoin: seq<string> -> string): (r: UploadResult)
    requires '/' in u.contentType
    ensures u.folder == "" ==> r == UploadResult(None, Refused(InvalidFolder))
    ensures r.stored.Some? ==> r.stored.value.path == fileJoin(fileJoin(root, u.folder), u.id)
    ensures r.stored.Some? ==>
      (UploadFormat(u.contentType) == "png" <==> r.stored.value.payload == Verbatim(u.bytes))
    ensures r.stored.Some? && UploadFormat(u.contentType) != "png" ==>
      u.decoded.Some? && r.stored.value.payload == ReencodedPng(u.decoded.value)
    ensures r.reply.Created? ==>
      r.stored.Some? && r.reply.urlPath == urlJoin([basePath, u.folder, u.id + "." + UploadFormat(u.contentType)])
    ensures r.stored.Some? <==> r.reply.Created? || r.reply == Refused(BadDomain)
    ensures r.reply.Created? <==> WritesFile(u, failing) && ParseDomain !in failing
    ensures r.reply == Refused(BadDomain) <==> WritesFile(u, failing) && ParseDomain in failing
  {
    if u.folder == "" then UploadResult(None, Refused(InvalidFolder))
    else if MakeFolder in failing then UploadResult(None, Refused(FolderCreateFailed))
    else if FormFile in failing then UploadResult(None, Refused(NoFile))
    else if OpenUpload in failing then UploadResult(None, Refused(OpenFailed))
    else if ReadUpload in failing then UploadResult(None, Refused(ReadFailed))
    else if SniffPanics(u, failing) then UploadResult(None, Refused(SniffPanic))
    else
      var format := UploadFormat(u.contentType);
      if format != "" && !Has(SupportedTypes, format) then UploadResult(None, Refused(UnsupportedFormat))
      else if format != "png" && u.decoded.None? then UploadResult(None, Refused(DecodeFailed))
      else if format != "png" && EncodePng in failing then UploadResult(None, Refused(EncodeFailed))
      else
        var payload := if format == "png" then Verbatim(u.bytes) else ReencodedPng(u.decoded.value);
        var stored := Stored(fileJoin(fileJoin(root, u.folder), u.id), payload);
        if CreateFile in failing then UploadResult(None, Refused(CreateFailed))
        else if WriteFile in failing then UploadResult(None, Refused(WriteFailed))
        else if ParseDomain in failing then UploadResult(Some(stored), Refused(BadDomain))
        else UploadResult(Some(stored), Created(urlJoin([basePath, u.folder, u.id + "." + format])))
  }

  /** A subtype the supported list does not accept is refused before
      anything is decoded or written. */
  lemma UploadRejectsUnsupported(u: Upload, root: string, basePath: string,
                                 fileJoin: (string, string) -> string, urlJoin: seq<string> -> string)
    requires '/' in u.contentType && u.folder != ""
    requires UploadFormat(u.contentType) != "" && !Has(SupportedTypes, UploadFormat(u.contentType))
    ensures UploadImage(u, root, basePath, {}, fileJoin, urlJoin) == UploadResult(None, Refused(UnsupportedFormat))
  {
  }

  /** The upload is answered 400 exactly for an empty folder, a missing
      form file once the folder exists, or a subtype the suffix test
      rejects once the upload has been read and sniffed; every other
      refusal is 500. */
  lemma UploadClientErrorIff(u: Upload, root: string, basePath: string, failing: set<IoStep>,
                             fileJoin: (string, string) -> string, urlJoin: seq<string> -> string)
    requires '/' in u.contentType
    ensures var r := UploadImage(u, root, basePath, failing, fileJoin, urlJoin);
      (r.reply.Refused? && UploadStatus(r.reply.error) == 400) <==>
      u.folder == "" ||
      (MakeFolder !in failing &&
       (FormFile in failing ||
        (OpenUpload !in failing && ReadUpload !in failing && !SniffPanics(u, failing) &&
         UploadFormat(u.contentType) != "" && !Has(SupportedTypes, UploadFormat(u.contentType)))))
  {
  }

  /** With no failing step, every accepted subtype ends in a stored file and
      a URL; the URL carries the subtype while the stored name carries none. */
  lemma UploadSucceeds(u: Upload, root: string, basePath: string,
                       fileJoin: (string, string) -> string, urlJoin: seq<string> -> string)
    requires '/' in u.contentType && u.folder != ""
    requires UploadFormat(u.contentType) == "" || Has(SupportedTypes, UploadFormat(u.contentType))
    requires UploadFormat(u.contentType) != "png" ==> u.decoded.Some?
    ensures UploadImage(u, root, basePath, {}, fileJoin, urlJoin).reply ==
      Created(urlJoin([basePath, u.folder, u.id + "." + UploadFormat(u.contentType)]))
  {
  }

  /** An accepted subtype other than png is stored re-encoded as PNG under
      the bare id, while the URL handed back carries the subtype. */
  lemma ConvertedUploadKeepsSubtypeInUrl(u: Upload, root: string, basePath: string,
                                         fileJoin: (string, string) -> string, urlJoin: seq<string> -> string)
    requires '/' in u.contentType && u.folder != "" && u.decoded.Some?
    requires Has(SupportedTypes, UploadFormat(u.contentType)) && UploadFormat(u.contentType) != "png"
    ensures UploadImage(u, root, basePath, {}, fileJoin, urlJoin) ==
      UploadResult(Some(Stored(fileJoin(fileJoin(root, u.folder), u.id), ReencodedPng(u.decoded.value))),
                   Created(urlJoin([basePath, u.folder, u.id + "." + UploadFormat(u.contentType)])))
  {
  }

  /** For example, a JPEG upload is stored as PNG bytes at data/maps/m1 and
      answered with a URL ending in "m1.jpeg". */
  lemma JpegUploadStoredAsPng(img: Decoded, bytes: seq<Byte>,
                              fileJoin: (string, string) -> string, urlJoin: seq<string> -> string)
    ensures UploadImage(Upload("maps", "m1", bytes, "image/jpeg", Some(img)), "data", "", {}, fileJoin, urlJoin) ==
      UploadResult(Some(Stored(fileJoin(fileJoin("data", "maps"), "m1"), ReencodedPng(img))),
                   Created(urlJoin(["", "maps", "m1.jpeg"])))
  {
    JpegSubtype();
    SupportedHasIff("jpeg");
    var u := Upload("maps", "m1", bytes, "image/jpeg", Some(img));
    ConvertedUploadKeepsSubtypeInUrl(u, "data", "", fileJoin, urlJoin);
    JpegUrlName();
    assert ["", u.folder, u.id + "." + UploadFormat(u.contentType)] == ["", "maps", "m1.jpeg"];
  }

  lemma JpegUrlName()
    ensures "m1" + "." + "jpeg" == "m1.jpeg"
  {
    assert |"m1" + "." + "jpeg"| == 7;
  }

  lemma JpegSubtype()
    ensures UploadFormat("image/jpeg") == "jpeg"
  {
    assert "image/jpeg" == "image" + "/" + "jpeg";
    IndexOfAfterPiece("image", '/', "jpeg");
    var rest := "image/jpeg"[6..];
    assert rest == "jpeg";
    assert Split(rest, '/') == ["jpeg"];
  }
}
