/**
  The request rules of the Flask service in app.py, without the image
  library and the filesystem: which names are accepted, the validation ladder
  of `/upload`, and which files `/compress` turns into which archive entries,
  with the JSON it answers.

  `secure_filename` is a function parameter and `uuid4()` a session-id
  parameter; what PIL does with a file's bytes is a field of the uploaded
  file (the JPEG it encodes, or the text of the exception it raises), and
  whether writing the archive to disk fails is a parameter.
 */
module Server {
  import opened Util

  // ---------------------------------------------------------------------
  // File names
  // ---------------------------------------------------------------------

  const AllowedExtensions: set<string> := {"jpg", "jpeg", "png", "gif", "bmp"}

  /** `allowed_file`: there is a dot, and the text after the last dot,
      lower-cased, is an allowed extension. */
  predicate AllowedFile(filename: string)
  {
    '.' in filename && Lower(AfterLast(filename, '.')) in AllowedExtensions
  }

  /** Stated through any dot with no dot after it: the decision depends on
      the last extension alone. */
  lemma AllowedFileAtLastDot(filename: string, d: nat)
    requires d < |filename| && filename[d] == '.' && '.' !in filename[d + 1..]
    ensures AllowedFile(filename) <==> Lower(filename[d + 1..]) in AllowedExtensions
  {
    LastIndexOfUnique(filename, '.', d);
  }

  /** Without a dot nothing is accepted, whatever the name ends with. */
  lemma AllowedFileNeedsDot(filename: string)
    requires '.' !in filename
    ensures !AllowedFile(filename)
  {
  }

  /** Lower-casing the whole name does not change the decision. */
  lemma AllowedFileOfLower(filename: string)
    ensures AllowedFile(Lower(filename)) == AllowedFile(filename)
  {
    LowerKeepsLastIndex(filename, '.');
    LowerAfterLast(filename, '.');
    LowerTwice(AfterLast(filename, '.'));
  }

  /** `allowed_file` ignores case: two names that agree up to the case of
      ASCII letters are accepted or rejected together ("A.JPG" and "a.jpg"). */
  lemma AllowedFileIgnoresCase(a: string, b: string)
    requires Lower(a) == Lower(b)
    ensures AllowedFile(a) == AllowedFile(b)
  {
    AllowedFileOfLower(a);
    AllowedFileOfLower(b);
  }

  /** `os.path.splitext(p)[0]` for POSIX paths: the text before the last dot,
      when that dot comes after the last '/' and the final path component has
      something other than dots before it; otherwise all of `p`. */
  function SplitExtRoot(p: string): string
  {
    var sep := LastIndexOf(p, '/');
    var dot := LastIndexOf(p, '.');
    if dot > sep && !OnlyDots(p[sep + 1..dot]) then p[..dot] else p
  }

  predicate OnlyDots(s: string)
  {
    forall i :: 0 <= i < |s| ==> s[i] == '.'
  }

  /** The root is a prefix of the path; when it is shorter, what was cut off
      is a dot followed by an extension holding neither '.' nor '/'. */
  lemma SplitExtRootShape(p: string)
    ensures var root := SplitExtRoot(p);
      && root <= p
      && (root != p ==> p[|root|] == '.' && forall j :: |root| < j < |p| ==> p[j] != '.' && p[j] != '/')
  {
    var sep := LastIndexOf(p, '/');
    var dot := LastIndexOf(p, '.');
    if dot > sep && !OnlyDots(p[sep + 1..dot]) {
    }
  }

  const EntrySuffix := "_compressed.jpg"

  /** The archive entry name for an uploaded file name. */
  function EntryName(secure: string -> string, filename: string): string
  {
    SplitExtRoot(secure(filename)) + EntrySuffix
  }

  /** A secured name without '/' whose last dot follows a non-dot character
      loses exactly its extension; a name without a dot keeps everything. */
  lemma EntryNameStem(secure: string -> string, filename: string)
    requires '/' !in secure(filename)
    ensures var s := secure(filename);
      && ('.' !in s ==> EntryName(secure, filename) == s + EntrySuffix)
      && (forall d, k :: 0 <= k < d < |s| && s[d] == '.' && '.' !in s[d + 1..] && s[k] != '.' ==>
            EntryName(secure, filename) == s[..d] + EntrySuffix)
  {
    var s := secure(filename);
    forall d, k | 0 <= k < d < |s| && s[d] == '.' && '.' !in s[d + 1..] && s[k] != '.'
      ensures EntryName(secure, filename) == s[..d] + EntrySuffix
    {
      LastIndexOfUnique(s, '.', d);
      assert LastIndexOf(s, '/') == -1;
      assert s[0..d][k] == s[k];
    }
  }

  // ---------------------------------------------------------------------
  // The quality field: Python's int() on a string
  // ---------------------------------------------------------------------

  predicate IsSpace(c: char)
  {
    c == ' ' || c == '\t' || c == '\n' || c == '\r' || c as int == 11 || c as int == 12
  }

  function TrimStart(s: string): string
  {
    if s != [] && IsSpace(s[0]) then TrimStart(s[1..]) else s
  }

  function TrimEnd(s: string): string
  {
    if s != [] && IsSpace(s[|s| - 1]) then TrimEnd(s[..|s| - 1]) else s
  }

  predicate IsDigit(c: char)
  {
    '0' <= c <= '9'
  }

  predicate AllDigits(s: string)
  {
    forall i :: 0 <= i < |s| ==> IsDigit(s[i])
  }

  function DigitsValue(s: string): nat
    requires AllDigits(s)
  {
    if s == [] then 0
    else DigitsValue(s[..|s| - 1]) * 10 + (s[|s| - 1] as int - '0' as int)
  }

  /** `int(s)` for a string: surrounding white space, an optional sign and
      decimal digits; anything else raises ValueError (None here). */
  function PyInt(s: string): Option<int>
  {
    var t := TrimEnd(TrimStart(s));
    if t != [] && (t[0] == '+' || t[0] == '-') then
      if |t| > 1 && AllDigits(t[1..]) then
        Some(if t[0] == '-' then -(DigitsValue(t[1..]) as int) else DigitsValue(t[1..]))
      else None
    else if t != [] && AllDigits(t) then Some(DigitsValue(t))
    else None
  }

  /** The decimal form of a natural number, as the quality slider sends it. */
  function Decimal(n: nat): (s: string)
    ensures s != [] && AllDigits(s)
  {
    if n < 10 then [('0' as int + n) as char]
    else Decimal(n / 10) + [('0' as int + n % 10) as char]
  }

  lemma {:induction false} DigitsValueOfDecimal(n: nat)
    ensures DigitsValue(Decimal(n)) == n
  {
    if n >= 10 {
      DigitsValueOfDecimal(n / 10);
      var s := Decimal(n);
      assert s[..|s| - 1] == Decimal(n / 10);
    }
  }

  /** `int()` reads back what a decimal rendering wrote, with or without a
      minus sign and surrounding blanks. */
  lemma PyIntReadsDecimal(n: nat)
    ensures PyInt(Decimal(n)) == Some(n)
    ensures PyInt("-" + Decimal(n)) == Some(-(n as int))
    ensures PyInt(" " + Decimal(n) + "\n") == Some(n)
  {
    var s := Decimal(n);
    DigitsValueOfDecimal(n);
    assert TrimStart(s) == s && TrimEnd(s) == s;
    var m := "-" + s;
    assert TrimStart(m) == m && TrimEnd(m) == m;
    assert m[1..] == s;
    var b := " " + s + "\n";
    assert b[1..] == s + "\n";
    assert TrimStart(b) == TrimStart(s + "\n") == s + "\n";
    assert (s + "\n")[..|s|] == s;
    assert TrimEnd(s + "\n") == TrimEnd(s) == s;
  }

  /** `int(request.form.get('quality', 80))`. */
  function QualityOf(field: Option<string>): Option<int>
  {
    match field
    case None => Some(80)
    case Some(s) => PyInt(s)
  }

  // ---------------------------------------------------------------------
  // Requests and answers
  // ---------------------------------------------------------------------

  /** What PIL does with a file's bytes at the requested quality. */
  datatype ImageOutcome = Encoded(jpeg: seq<bv8>) | Raises(message: string)

  /** One `files` part of the multipart body. */
  datatype Upload = Upload(filename: string, image: ImageOutcome)

  /** The parts of a POST the views read: the `files` list (None when the
      field is absent) and the `quality` form value. */
  datatype FormRequest = FormRequest(files: Option<seq<Upload>>, quality: Option<string>)

  /** `request.files.getlist('files')`: empty when the field is absent. */
  function FileList(request: FormRequest): seq<Upload>
  {
    if request.files.Some? then request.files.value else []
  }

  datatype Response<T> =
    | Success(body: T)                      // 200 with a JSON body
    | ErrorJson(status: int, error: string) // a JSON `{"error": ...}` with a status
    | Unhandled                             // an exception escaped the view: the framework's 500

  datatype UploadBody = UploadBody(sessionId: string, fileCount: nat, quality: int)

  datatype CompressBody = CompressBody(downloadUrl: string, fileCount: nat)

  datatype ArchiveEntry = ArchiveEntry(name: string, data: seq<bv8>)

  function InvalidTypeMessage(filename: string): string
  {
    "Invalid file type: " + filename
  }

  // ---------------------------------------------------------------------
  // /upload
  // ---------------------------------------------------------------------

  /** `upload_files`: no `files` field; then the quality conversion, which
      may raise; then an empty list or an empty first name; then the first
      disallowed name in list order; otherwise the count and the quality. */
  method UploadFiles(request: FormRequest, sessionId: string) returns (response: Response<UploadBody>)
    ensures request.files.None? ==> response == ErrorJson(400, "No files uploaded")
    ensures request.files.Some? && QualityOf(request.quality).None? ==> response == Unhandled
    ensures request.files.Some? && QualityOf(request.quality).Some? ==>
      var files := request.files.value;
      if files == [] || files[0].filename == "" then
        response == ErrorJson(400, "No files selected")
      else if forall i :: 0 <= i < |files| ==> AllowedFile(files[i].filename) then
        response == Success(UploadBody(sessionId, |files|, QualityOf(request.quality).value))
      else
        exists i :: 0 <= i < |files| && !AllowedFile(files[i].filename)
          && (forall j :: 0 <= j < i ==> AllowedFile(files[j].filename))
          && response == ErrorJson(400, InvalidTypeMessage(files[i].filename))
  {
    if request.files.None? {
      return ErrorJson(400, "No files uploaded");
    }
    var files := request.files.value;
    var quality := QualityOf(request.quality);
    if quality.None? {
      return Unhandled;
    }
    if files == [] || files[0].filename == "" {
      return ErrorJson(400, "No files selected");
    }
    var i := 0;
    while i < |files|
      invariant 0 <= i <= |files|
      invariant forall j :: 0 <= j < i ==> AllowedFile(files[j].filename)
    {
      if !AllowedFile(files[i].filename) {
        return ErrorJson(400, InvalidTypeMessage(files[i].filename));
      }
      i := i + 1;
    }
    response := Success(UploadBody(sessionId, |files|, quality.value));
  }

  // ---------------------------------------------------------------------
  // /compress
  // ---------------------------------------------------------------------

  /** `file and allowed_file(file.filename)`: a part is truthy when it has a
      file name. */
  predicate IsProcessed(f: Upload)
  {
    f.filename != "" && AllowedFile(f.filename)
  }

  /** The truthiness test adds nothing: an allowed name is never empty. */
  lemma ProcessedIffAllowed(f: Upload)
    ensures IsProcessed(f) <==> AllowedFile(f.filename)
  {
  }

  ghost predicate AllEncode(files: seq<Upload>)
  {
    forall k :: 0 <= k < |files| ==> files[k].image.Encoded?
  }

  function EntryFor(secure: string -> string, f: Upload): ArchiveEntry
    requires f.image.Encoded?
  {
    ArchiveEntry(EntryName(secure, f.filename), f.image.jpeg)
  }

  function DownloadUrl(sessionId: string): string
  {
    "/download/compressed_images_" + sessionId + ".zip"
  }

  /** The session id can be read back from its download URL, so distinct
      sessions get distinct URLs. */
  lemma DownloadUrlNamesSession(sessionId: string, other: string)
    ensures var url := DownloadUrl(sessionId);
      && url[..28] == "/download/compressed_images_"
      && url[|url| - 4..] == ".zip"
      && url[28..|url| - 4] == sessionId
    ensures sessionId != other ==> DownloadUrl(sessionId) != DownloadUrl(other)
  {
    var url, url2 := DownloadUrl(sessionId), DownloadUrl(other);
    assert url[28..|url| - 4] == sessionId;
    assert url2[28..|url2| - 4] == other;
  }

  /** The first image-library exception among `accepted`, in order. */
  ghost predicate FirstRaiseAt(accepted: seq<Upload>, k: int)
  {
    && 0 <= k < |accepted| && accepted[k].image.Raises?
    && forall j :: 0 <= j < k ==> accepted[j].image.Encoded?
  }

  /** One archive entry per accepted file, in order. */
  ghost predicate IsArchiveOf(entries: seq<ArchiveEntry>, secure: string -> string, accepted: seq<Upload>)
  {
    && AllEncode(accepted)
    && |entries| == |accepted|
    && forall k :: 0 <= k < |accepted| ==> entries[k] == EntryFor(secure, accepted[k])
  }

  /** A processed file that raises, after processed files that all
      encoded, is the first raise among all the processed files. */
  lemma FirstRaiseFound(files: seq<Upload>, i: nat)
    requires i < |files| && IsProcessed(files[i]) && files[i].image.Raises?
    requires AllEncode(Filter(IsProcessed, files[..i]))
    ensures var k := |Filter(IsProcessed, files[..i])|;
      FirstRaiseAt(Filter(IsProcessed, files), k) && Filter(IsProcessed, files)[k] == files[i]
  {
    FilterAt(IsProcessed, files, i);
    var accepted := Filter(IsProcessed, files);
    var k := |Filter(IsProcessed, files[..i])|;
    forall j | 0 <= j < k
      ensures accepted[j].image.Encoded?
    {
      assert accepted[j] == accepted[..k][j];
    }
  }

  /** Encoding one more accepted file extends the archive by its entry. */
  lemma ArchiveSnoc(entries: seq<ArchiveEntry>, secure: string -> string, accepted: seq<Upload>, f: Upload)
    requires IsArchiveOf(entries, secure, accepted) && f.image.Encoded?
    ensures IsArchiveOf(entries + [EntryFor(secure, f)], secure, accepted + [f])
  {
  }

  /** The `for` loop of `compress_images`: each processed file is encoded
      and named in turn; the first exception stops it with its text. */
  method EncodeProcessed(files: seq<Upload>, secure: string -> string)
    returns (failure: Option<string>, compressed: seq<ArchiveEntry>)
    ensures var accepted := Filter(IsProcessed, files);
      && (failure.None? <==> AllEncode(accepted))
      && (failure.None? ==> IsArchiveOf(compressed, secure, accepted))
      && (failure.Some? ==> exists k :: FirstRaiseAt(accepted, k) && failure.value == accepted[k].image.message)
  {
    compressed := [];
    ghost var accepted: seq<Upload> := [];
    var i := 0;
    while i < |files|
      invariant 0 <= i <= |files|
      invariant accepted == Filter(IsProcessed, files[..i])
      invariant IsArchiveOf(compressed, secure, accepted)
    {
      var file := files[i];
      assert files[..i + 1] == files[..i] + [file];
      FilterSnoc(IsProcessed, files[..i], file);
      if IsProcessed(file) {
        match file.image {
          case Raises(message) =>
            FirstRaiseFound(files, i);
            return Some(message), [];
          case Encoded(jpeg) =>
            var entry := ArchiveEntry(EntryName(secure, file.filename), jpeg);
            assert entry == EntryFor(secure, file);
            ArchiveSnoc(compressed, secure, accepted, file);
            compressed := compressed + [entry];
            accepted := accepted + [file];
        }
      }
      i := i + 1;
    }
    assert files[..i] == files;
    failure := None;
  }

  /** The loop that writes each entry into the zip, in order. */
  method WriteZip(compressed: seq<ArchiveEntry>) returns (zip: seq<ArchiveEntry>)
    ensures zip == compressed
  {
    zip := [];
    var j := 0;
    while j < |compressed|
      invariant 0 <= j <= |compressed|
      invariant zip == compressed[..j]
    {
      zip := zip + [compressed[j]];
      j := j + 1;
    }
  }

  /** `compress_images`. The quality conversion comes first and is outside
      the `try`; an empty list is refused; then every processed file, in
      order, is encoded and named, and others are skipped without a word.
      The first exception (from the image library, or from writing the
      archive) becomes a 500 carrying its text. On success the archive
      holds one entry per processed file, in order, and the answer reports
      how many. `archive` is what reaches the disk. */
  method CompressImages(request: FormRequest, secure: string -> string, sessionId: string,
                        writeError: Option<string>)
    returns (response: Response<CompressBody>, archive: seq<ArchiveEntry>)
    ensures QualityOf(request.quality).None? ==> response == Unhandled && archive == []
    ensures QualityOf(request.quality).Some? && FileList(request) == [] ==>
      response == ErrorJson(400, "No files to compress") && archive == []
    ensures QualityOf(request.quality).Some? && FileList(request) != [] ==>
      var accepted := Filter(IsProcessed, FileList(request));
      if !AllEncode(accepted) then
        && archive == []
        && exists k :: FirstRaiseAt(accepted, k) && response == ErrorJson(500, accepted[k].image.message)
      else if writeError.Some? then
        response == ErrorJson(500, writeError.value) && archive == []
      else
        && response == Success(CompressBody(DownloadUrl(sessionId), |accepted|))
        && IsArchiveOf(archive, secure, accepted)
  {
    var files := FileList(request);
    var quality := QualityOf(request.quality);
    if quality.None? {
      return Unhandled, [];
    }
    if files == [] {
      return ErrorJson(400, "No files to compress"), [];
    }
    var failure, compressed := EncodeProcessed(files, secure);
    if failure.Some? {
      return ErrorJson(500, failure.value), [];
    }
    var zip := WriteZip(compressed);
    if writeError.Some? {
      return ErrorJson(500, writeError.value), [];
    }
    archive := zip;
    response := Success(CompressBody(DownloadUrl(sessionId), |compressed|));
  }

  /** A non-empty list in which nothing is allowed still succeeds, with an
      empty archive and a file count of zero. */
  method NothingAcceptedStillSucceeds(files: seq<Upload>, secure: string -> string, sessionId: string)
    returns (response: Response<CompressBody>, archive: seq<ArchiveEntry>)
    requires files != [] && forall f :: f in files ==> !AllowedFile(f.filename)
    ensures response == Success(CompressBody(DownloadUrl(sessionId), 0))
    ensures archive == []
  {
    FilterKeepsNone(IsProcessed, files);
    response, archive := CompressImages(FormRequest(Some(files), None), secure, sessionId, None);
  }

  /** The accepted files are exactly the allowed ones, in upload order, so
      the reported count is the number of allowed names. */
  lemma CompressedCountIsAllowedCount(files: seq<Upload>)
    ensures var accepted := Filter(IsProcessed, files);
      && IsSubsequence(accepted, files)
      && (forall f :: f in accepted <==> f in files && AllowedFile(f.filename))
      && (forall f :: multiset(accepted)[f] == if AllowedFile(f.filename) then multiset(files)[f] else 0)
  {
    FilterExact(IsProcessed, files);
    var accepted := Filter(IsProcessed, files);
    forall f | f in files && AllowedFile(f.filename) ensures f in accepted {
      assert multiset(accepted)[f] == multiset(files)[f] > 0;
    }
  }

  /** A list that `/upload` accepts loses nothing at `/compress`: every
      file is processed, so the two endpoints report the same count. */
  lemma UploadedListCompressesWhole(files: seq<Upload>)
    requires forall i :: 0 <= i < |files| ==> AllowedFile(files[i].filename)
    ensures Filter(IsProcessed, files) == files
  {
    forall f | f in files ensures IsProcessed(f) {
      var i :| 0 <= i < |files| && files[i] == f;
    }
    FilterKeepsAll(IsProcessed, files);
  }

  // ---------------------------------------------------------------------
  // /progress/<session_id>
  // ---------------------------------------------------------------------

  /** `get_progress`: a constant answer, whatever the session. */
  function GetProgress(sessionId: string): (progress: int)
    ensures progress == 0
  {
    0
  }
}
