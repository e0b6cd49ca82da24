/**
  The browser side of the image compressor: the `ImageCompressor` session
  controller of static/js/app.js with the page replaced by plain state.

  Each DOM element the controller writes is a field: the text it shows, or
  whether its section is displayed. The one asynchronous operation,
  submitting the batch, is cut at its suspension points into three steps
  that the environment runs in order:
    CompressImages   validates, shows progress, builds the request;
    ReceiveResponse  runs when `fetch` settles, with the outcome as input;
    ShowResult       the 500 ms timer callback, with the values it captured.
  Nothing ties these steps together beyond the values passed between them:
  the source has no in-flight guard and does not discard late responses,
  and neither does this model.
 */
module Client {
  import opened Util

  // ---------------------------------------------------------------------
  // Files and the MIME allowlist
  // ---------------------------------------------------------------------

  /** A browser `File`, reduced to what the controller reads from it. */
  datatype CandidateFile = CandidateFile(name: string, size: nat, mimeType: string)

  const AcceptedMimeTypes: seq<string> :=
    ["image/jpeg", "image/jpg", "image/png", "image/gif", "image/bmp"]

  predicate IsImageFile(f: CandidateFile)
  {
    f.mimeType in AcceptedMimeTypes
  }

  /** The selection filter keeps a file exactly when its MIME type is on the
      allowlist, keeps each such file as often as it was offered, and keeps
      the offered order. */
  lemma SelectionIsExactlyTheImages(files: seq<CandidateFile>)
    ensures var kept := Filter(IsImageFile, files);
      && IsSubsequence(kept, files)
      && (forall f :: f in kept <==> f in files && IsImageFile(f))
      && (forall f :: multiset(kept)[f] == if IsImageFile(f) then multiset(files)[f] else 0)
  {
    FilterExact(IsImageFile, files);
    var kept := Filter(IsImageFile, files);
    forall f | f in files && IsImageFile(f) ensures f in kept {
      assert multiset(kept)[f] == multiset(files)[f] > 0;
    }
  }

  // ---------------------------------------------------------------------
  // Displayed file names
  // ---------------------------------------------------------------------

  const DefaultMaxNameLength := 20

  /** `truncateFileName`: a name that fits is shown as is; a longer one as a
      prefix of the text before its last dot, "...", and the text after that
      dot. `split('.').pop()` is the whole name when there is no dot, and
      `substring` clamps a negative end to 0. */
  function TruncateFileName(fileName: string, maxLength: int): (r: string)
    ensures |fileName| <= maxLength ==> r == fileName
  {
    if |fileName| <= maxLength then fileName
    else
      var extension := AfterLast(fileName, '.');
      var name := JsPrefix(fileName, LastIndexOf(fileName, '.'));
      JsPrefix(name, maxLength - |extension| - 4) + "..." + extension
  }

  /** A name longer than the budget, whose last dot is at `d`: the result is
      the first `keep` characters, "...", and the extension, where `keep` is
      the budget less the extension and four, clamped into [0, d]. */
  lemma TruncateAtLastDot(fileName: string, maxLength: int, d: nat)
    requires |fileName| > maxLength
    requires d < |fileName| && fileName[d] == '.' && '.' !in fileName[d + 1..]
    ensures var extension := fileName[d + 1..];
      var budget := maxLength - |extension| - 4;
      var keep := if budget < 0 then 0 else if budget > d then d else budget;
      TruncateFileName(fileName, maxLength) == fileName[..keep] + "..." + extension
  {
    LastIndexOfUnique(fileName, '.', d);
    var name := JsPrefix(fileName, d);
    assert name == fileName[..d];
    var budget := maxLength - |fileName[d + 1..]| - 4;
    var keep := if budget < 0 then 0 else if budget > d then d else budget;
    assert JsPrefix(name, budget) == name[..keep] == fileName[..keep];
  }

  /** When the extension leaves room in the budget, the displayed name is
      strictly shorter than the budget: at most `maxLength - 1` characters. */
  lemma TruncateFitsBudget(fileName: string, maxLength: int)
    requires |fileName| > maxLength
    requires '.' in fileName && |AfterLast(fileName, '.')| + 4 <= maxLength
    ensures |TruncateFileName(fileName, maxLength)| <= maxLength - 1
    ensures AfterLast(TruncateFileName(fileName, maxLength), '.') == AfterLast(fileName, '.')
  {
    var d := LastIndexOf(fileName, '.');
    var extension := AfterLast(fileName, '.');
    TruncateAtLastDot(fileName, maxLength, d);
    var r := TruncateFileName(fileName, maxLength);
    assert r[|r| - |extension| - 1] == '.';
    assert r[|r| - |extension|..] == extension;
    LastIndexOfUnique(r, '.', |r| - |extension| - 1);
  }

  /** A name with no dot is the edge case of the source: the "extension" is
      the whole name and the kept prefix is empty, so the displayed name is
      the whole name after "...", three characters longer than the input. */
  lemma TruncateWithoutDot(fileName: string, maxLength: int)
    requires |fileName| > maxLength && '.' !in fileName
    ensures TruncateFileName(fileName, maxLength) == "..." + fileName
    ensures |TruncateFileName(fileName, maxLength)| == |fileName| + 3
  {
    assert AfterLast(fileName, '.') == fileName;
  }

  // ---------------------------------------------------------------------
  // The preview of the selection
  // ---------------------------------------------------------------------

  /** One tile of the preview grid: full name as tooltip, truncated name as
      caption, and the size in bytes that `formatFileSize` renders. */
  datatype FileItem = FileItem(title: string, caption: string, size: nat)

  function PreviewItem(f: CandidateFile): FileItem
  {
    FileItem(f.name, TruncateFileName(f.name, DefaultMaxNameLength), f.size)
  }

  /** The preview grid for `files`: one tile per file, in order. */
  function PreviewOf(files: seq<CandidateFile>): seq<FileItem>
  {
    Map(PreviewItem, files)
  }

  /** Sum of the byte sizes of `files`. */
  function TotalBytes(files: seq<CandidateFile>): nat
  {
    if files == [] then 0 else TotalBytes(files[..|files| - 1]) + files[|files| - 1].size
  }

  /** The total of a concatenation is the sum of the totals; in particular it
      does not depend on how the selection was split into batches. */
  lemma {:induction false} TotalBytesAppend(a: seq<CandidateFile>, b: seq<CandidateFile>)
    ensures TotalBytes(a + b) == TotalBytes(a) + TotalBytes(b)
  {
    if b == [] {
      assert a + b == a;
    } else {
      var init := b[..|b| - 1];
      TotalBytesAppend(a, init);
      assert (a + b)[..|a + b| - 1] == a + init;
    }
  }

  /** The `forEach` of `displaySelectedFiles`: one tile per file in order,
      and the running byte total. */
  method BuildPreview(files: seq<CandidateFile>) returns (items: seq<FileItem>, totalBytes: nat)
    ensures items == PreviewOf(files)
    ensures totalBytes == TotalBytes(files)
  {
    items, totalBytes := [], 0;
    var i := 0;
    while i < |files|
      invariant 0 <= i <= |files|
      invariant items == PreviewOf(files[..i])
      invariant totalBytes == TotalBytes(files[..i])
    {
      assert files[..i + 1][..i] == files[..i];
      MapSnoc(PreviewItem, files[..i], files[i]);
      assert files[..i + 1] == files[..i] + [files[i]];
      totalBytes := totalBytes + files[i].size;
      items := items + [PreviewItem(files[i])];
      i := i + 1;
    }
    assert files[..i] == files;
  }

  // ---------------------------------------------------------------------
  // The request
  // ---------------------------------------------------------------------

  const CompressEndpoint := "/compress"
  const DefaultQuality := "80"

  /** A part of the multipart body: a `files` part or the `quality` field. */
  datatype FormPart = FilePart(file: CandidateFile) | QualityPart(value: string)

  datatype Request = Request(url: string, httpMethod: string, parts: seq<FormPart>)

  /** One `files` part per file, in order, then the quality. */
  ghost predicate IsFormDataFor(parts: seq<FormPart>, files: seq<CandidateFile>, quality: string)
  {
    && |parts| == |files| + 1
    && (forall i :: 0 <= i < |files| ==> parts[i] == FilePart(files[i]))
    && parts[|files|] == QualityPart(quality)
  }

  /** The `forEach` of `compressImages` that appends each file, followed by
      the quality field. */
  method BuildFormData(files: seq<CandidateFile>, quality: string) returns (parts: seq<FormPart>)
    ensures IsFormDataFor(parts, files, quality)
  {
    parts := [];
    var i := 0;
    while i < |files|
      invariant 0 <= i <= |files|
      invariant |parts| == i
      invariant forall k :: 0 <= k < i ==> parts[k] == FilePart(files[k])
    {
      parts := parts + [FilePart(files[i])];
      i := i + 1;
    }
    parts := parts + [QualityPart(quality)];
  }

  /** What the receiving end reads back from a body: the `files` parts in
      order (`getlist('files')`) and the first `quality` value (`get`). */
  function FileParts(parts: seq<FormPart>): seq<CandidateFile>
  {
    if parts == [] then []
    else FileParts(parts[..|parts| - 1])
         + (if parts[|parts| - 1].FilePart? then [parts[|parts| - 1].file] else [])
  }

  function FirstQuality(parts: seq<FormPart>): Option<string>
  {
    if parts == [] then None
    else if parts[0].QualityPart? then Some(parts[0].value)
    else FirstQuality(parts[1..])
  }

  /** The body built for a selection gives back exactly that selection, in
      order, and the quality that was read from the slider. */
  lemma {:induction false} FormDataReadsBack(parts: seq<FormPart>, files: seq<CandidateFile>, quality: string)
    requires IsFormDataFor(parts, files, quality)
    ensures FileParts(parts) == files
    ensures FirstQuality(parts) == Some(quality)
  {
    FilePartsOfPrefix(parts, files, |files|);
    assert parts[..|files| + 1][..|files|] == parts[..|files|];
    assert parts[..|files| + 1] == parts;
    assert files[..|files|] == files;
    FirstQualityAfterFiles(parts, files, 0);
  }

  lemma {:induction false} FilePartsOfPrefix(parts: seq<FormPart>, files: seq<CandidateFile>, k: nat)
    requires k <= |files| && |parts| == |files| + 1
    requires forall i :: 0 <= i < |files| ==> parts[i] == FilePart(files[i])
    ensures FileParts(parts[..k]) == files[..k]
  {
    if k > 0 {
      FilePartsOfPrefix(parts, files, k - 1);
      assert parts[..k][..k - 1] == parts[..k - 1];
      assert files[..k] == files[..k - 1] + [files[k - 1]];
    }
  }

  lemma {:induction false} FirstQualityAfterFiles(parts: seq<FormPart>, files: seq<CandidateFile>, k: nat)
    requires k <= |files| && |parts| == |files| + 1
    requires forall i :: 0 <= i < |files| ==> parts[i] == FilePart(files[i])
    requires parts[|files|].QualityPart?
    ensures FirstQuality(parts[k..]) == Some(parts[|files|].value)
    decreases |files| - k
  {
    if k < |files| {
      FirstQualityAfterFiles(parts, files, k + 1);
      assert parts[k..][1..] == parts[k + 1..];
    }
  }

  // ---------------------------------------------------------------------
  // Outcomes of the network round trip
  // ---------------------------------------------------------------------

  /** How the awaited part of `compressImages` ends:
      Completed  a 2xx answer whose JSON body was read;
      Rejected   a non-2xx answer whose JSON body was read, with its `error`;
      Failed     an exception: `fetch` itself rejected (responded = false),
                 or a body could not be read (responded = true). */
  datatype FetchOutcome =
    | Completed(fileCount: int, downloadUrl: string)
    | Rejected(error: Option<string>)
    | Failed(message: Option<string>, responded: bool)

  const CompressionFailedMessage := "Compression failed"
  const GenericErrorMessage := "An error occurred during compression"

  /** `errorData.error || 'Compression failed'`: a missing or empty field
      falls back to the default. */
  function RejectionMessage(error: Option<string>): (m: string)
    ensures m != ""
    ensures error.Some? && error.value != "" ==> m == error.value
    ensures error.None? || error.value == "" ==> m == CompressionFailedMessage
  {
    if error.Some? && error.value != "" then error.value else CompressionFailedMessage
  }

  /** `error.message || 'An error occurred during compression'`. */
  function FailureMessage(message: Option<string>): (m: string)
    ensures m != ""
    ensures message.Some? && message.value != "" ==> m == message.value
    ensures message.None? || message.value == "" ==> m == GenericErrorMessage
  {
    if message.Some? && message.value != "" then message.value else GenericErrorMessage
  }

  /** A rejection is thrown as an `Error` carrying RejectionMessage and
      caught by the same handler; its non-empty message passes through. */
  lemma RejectionSurvivesCatch(error: Option<string>)
    ensures FailureMessage(Some(RejectionMessage(error))) == RejectionMessage(error)
  {
  }

  /** The arguments the 500 ms timer hands to `showResult`. */
  datatype ScheduledResult = ScheduledResult(fileCount: int, downloadUrl: string, quality: string)

  const ArchiveName := "compressed_images.zip"

  /** The temporary `<a href download>` that `downloadFiles` clicks. */
  datatype DownloadLink = DownloadLink(href: string, download: string)

  const NoValidFilesMessage := "Please select valid image files (JPG, PNG, GIF, BMP)"
  const SkippedFilesMessage := "Some files were skipped. Only image files are supported."
  const NoSelectionMessage := "Please select files first"

  // ---------------------------------------------------------------------
  // The controller
  // ---------------------------------------------------------------------

  class ImageCompressor {
    var selectedFiles: seq<CandidateFile>
    var currentSessionId: Option<string>
    var downloadUrl: Option<string>

    // the quality slider's value and the label next to it
    var quality: string
    var qualityLabel: string

    // the progress bar's percentage, and every value written to it
    var progress: int
    ghost var progressTrace: seq<int>

    // texts shown on the page
    var errorMessage: string
    var fileItems: seq<FileItem>
    var totalFiles: nat
    var totalSize: nat
    var processedFiles: int
    var finalQuality: string

    // which sections are displayed
    var previewVisible: bool
    var controlsVisible: bool
    var progressVisible: bool
    var resultVisible: bool
    var errorVisible: bool
    var uploadVisible: bool

    /** What every handler keeps true: only allowed images are selected; the
        controls, the preview and the progress bar are only on screen with a
        selection, and the preview describes it; a displayed result has a
        download URL behind it. */
    ghost predicate Valid()
      reads this
    {
      SelectionValid() && PreviewValid()
    }

    ghost predicate SelectionValid()
      reads this
    {
      && (forall f :: f in selectedFiles ==> IsImageFile(f))
      && (controlsVisible ==> selectedFiles != [])
      && (progressVisible ==> selectedFiles != [])
      && (resultVisible ==> downloadUrl.Some?)
    }

    ghost predicate PreviewValid()
      reads this
    {
      previewVisible ==>
            && selectedFiles != []
            && totalFiles == |selectedFiles|
            && totalSize == TotalBytes(selectedFiles)
    }

    /** The page as loaded: nothing selected, only the upload area shown. */
    constructor ()
      ensures Valid()
      ensures selectedFiles == [] && currentSessionId == None && downloadUrl == None
      ensures quality == DefaultQuality && qualityLabel == DefaultQuality
      ensures progress == 0 && progressTrace == []
      ensures !previewVisible && !controlsVisible && !progressVisible
      ensures !resultVisible && !errorVisible && uploadVisible
    {
      selectedFiles := [];
      currentSessionId := None;
      downloadUrl := None;
      quality, qualityLabel := DefaultQuality, DefaultQuality;
      progress := 0;
      progressTrace := [];
      errorMessage := "";
      fileItems, totalFiles, totalSize := [], 0, 0;
      processedFiles, finalQuality := 0, "";
      previewVisible, controlsVisible, progressVisible := false, false, false;
      resultVisible, errorVisible, uploadVisible := false, false, true;
    }

    /** The slider's `input` handler: the label follows the slider. */
    method MoveQualitySlider(value: string)
      modifies this`quality, this`qualityLabel
      ensures quality == value && qualityLabel == value
    {
      quality := value;
      qualityLabel := value;
    }

    /** `handleFileSelect`, for the file picker and for a drop alike. */
    method HandleFileSelect(files: seq<CandidateFile>)
      requires Valid()
      modifies this`selectedFiles, this`errorMessage, this`errorVisible, this`progressVisible
      modifies this`fileItems, this`totalFiles, this`totalSize, this`previewVisible, this`controlsVisible
      ensures Valid()
      ensures Filter(IsImageFile, files) == [] ==>
        && selectedFiles == old(selectedFiles)
        && errorMessage == NoValidFilesMessage && errorVisible && !progressVisible
        && previewVisible == old(previewVisible) && controlsVisible == old(controlsVisible)
        && fileItems == old(fileItems) && totalFiles == old(totalFiles) && totalSize == old(totalSize)
      ensures Filter(IsImageFile, files) != [] ==>
        && selectedFiles == Filter(IsImageFile, files)
        && previewVisible && controlsVisible
        && fileItems == PreviewOf(selectedFiles)
        && totalFiles == |selectedFiles| && totalSize == TotalBytes(selectedFiles)
      ensures Filter(IsImageFile, files) != [] && |Filter(IsImageFile, files)| != |files| ==>
        errorMessage == SkippedFilesMessage && errorVisible && !progressVisible
      ensures Filter(IsImageFile, files) != [] && |Filter(IsImageFile, files)| == |files| ==>
        && errorMessage == old(errorMessage) && errorVisible == old(errorVisible)
        && progressVisible == old(progressVisible)
    {
      var validFiles := Filter(IsImageFile, files);
      if |validFiles| == 0 {
        ShowError(NoValidFilesMessage);
        return;
      }
      if |validFiles| != |files| {
        ShowError(SkippedFilesMessage);
      }
      selectedFiles := validFiles;
      DisplaySelectedFiles();
      ShowControls();
    }

    /** `displaySelectedFiles`: rebuilds the preview grid and its totals. */
    method DisplaySelectedFiles()
      requires SelectionValid() && selectedFiles != []
      modifies this`fileItems, this`totalFiles, this`totalSize, this`previewVisible
      ensures Valid()
      ensures fileItems == PreviewOf(selectedFiles)
      ensures totalFiles == |selectedFiles| && totalSize == TotalBytes(selectedFiles)
      ensures previewVisible
    {
      var items, totalSizeBytes := BuildPreview(selectedFiles);
      fileItems := items;
      totalFiles := |selectedFiles|;
      totalSize := totalSizeBytes;
      previewVisible := true;
    }

    method ShowControls()
      requires Valid() && selectedFiles != []
      modifies this`controlsVisible
      ensures Valid() && controlsVisible
    {
      controlsVisible := true;
    }

    /** `compressImages` up to the `await fetch(...)`: on an empty selection
        only an error; otherwise the error and result sections are hidden,
        progress goes to 0 and then 10, and the request is built from the
        selection and the slider's current value, which is also returned for
        the timer that will show the result. */
    method CompressImages() returns (request: Option<Request>, capturedQuality: string)
      requires Valid()
      modifies this`errorMessage, this`errorVisible, this`progressVisible, this`resultVisible
      modifies this`progress, this`progressTrace
      ensures Valid()
      ensures selectedFiles == [] ==>
        && request == None
        && errorMessage == NoSelectionMessage && errorVisible && !progressVisible
        && resultVisible == old(resultVisible)
        && progress == old(progress) && progressTrace == old(progressTrace)
      ensures selectedFiles != [] ==>
        && request.Some?
        && request.value.url == CompressEndpoint && request.value.httpMethod == "POST"
        && IsFormDataFor(request.value.parts, selectedFiles, quality)
        && capturedQuality == quality
        && !errorVisible && !resultVisible && progressVisible
        && errorMessage == old(errorMessage)
        && progress == 10 && progressTrace == old(progressTrace) + [0, 10]
    {
      capturedQuality := quality;
      if |selectedFiles| == 0 {
        ShowError(NoSelectionMessage);
        request := None;
        return;
      }
      errorVisible := false;
      resultVisible := false;
      ShowProgress();
      var parts := BuildFormData(selectedFiles, capturedQuality);
      UpdateProgress(10);
      request := Some(Request(CompressEndpoint, "POST", parts));
    }

    /** The rest of `compressImages`, once `fetch` has settled. A completed
        request takes progress to 90 and 100 and schedules `showResult`;
        every other outcome ends in the error section. */
    method ReceiveResponse(capturedQuality: string, outcome: FetchOutcome)
      returns (scheduled: Option<ScheduledResult>)
      requires Valid()
      modifies this`progress, this`progressTrace, this`errorMessage, this`errorVisible, this`progressVisible
      ensures Valid()
      ensures match outcome
        case Completed(n, url) =>
          && scheduled == Some(ScheduledResult(n, url, capturedQuality))
          && progress == 100 && progressTrace == old(progressTrace) + [90, 100]
          && errorMessage == old(errorMessage) && errorVisible == old(errorVisible)
          && progressVisible == old(progressVisible)
        case Rejected(error) =>
          && scheduled == None
          && progress == 90 && progressTrace == old(progressTrace) + [90]
          && errorMessage == RejectionMessage(error) && errorVisible && !progressVisible
        case Failed(message, responded) =>
          && scheduled == None
          && progressTrace == old(progressTrace) + (if responded then [90] else [])
          && progress == (if responded then 90 else old(progress))
          && errorMessage == FailureMessage(message) && errorVisible && !progressVisible
    {
      scheduled := None;
      match outcome {
        case Completed(n, url) =>
          UpdateProgress(90);
          UpdateProgress(100);
          scheduled := Some(ScheduledResult(n, url, capturedQuality));
        case Rejected(error) =>
          UpdateProgress(90);
          ShowError(FailureMessage(Some(RejectionMessage(error))));
        case Failed(message, responded) =>
          if responded {
            UpdateProgress(90);
          }
          ShowError(FailureMessage(message));
      }
    }

    method UpdateProgress(percentage: int)
      modifies this`progress, this`progressTrace
      ensures progress == percentage && progressTrace == old(progressTrace) + [percentage]
    {
      progress := percentage;
      progressTrace := progressTrace + [percentage];
    }

    method ShowProgress()
      requires Valid() && selectedFiles != []
      modifies this`progressVisible, this`resultVisible, this`errorVisible, this`progress, this`progressTrace
      ensures Valid()
      ensures progressVisible && !resultVisible && !errorVisible
      ensures progress == 0 && progressTrace == old(progressTrace) + [0]
    {
      progressVisible := true;
      resultVisible := false;
      errorVisible := false;
      UpdateProgress(0);
    }

    /** `showResult`: the timer callback. It runs whatever happened since it
        was scheduled, a restart included. */
    method ShowResult(result: ScheduledResult)
      requires Valid()
      modifies this`progressVisible, this`processedFiles, this`finalQuality, this`downloadUrl, this`resultVisible
      ensures Valid()
      ensures !progressVisible && resultVisible
      ensures processedFiles == result.fileCount && finalQuality == result.quality + "%"
      ensures downloadUrl == Some(result.downloadUrl)
    {
      progressVisible := false;
      processedFiles := result.fileCount;
      finalQuality := result.quality + "%";
      downloadUrl := Some(result.downloadUrl);
      resultVisible := true;
    }

    /** `showError`: shows the message and always hides the progress bar. */
    method ShowError(message: string)
      requires Valid()
      modifies this`errorMessage, this`errorVisible, this`progressVisible
      ensures Valid()
      ensures errorMessage == message && errorVisible && !progressVisible
    {
      errorMessage := message;
      errorVisible := true;
      progressVisible := false;
    }

    /** `downloadFiles`: a link only when there is a non-empty URL, always
        with the fixed archive name. */
    method DownloadFiles() returns (link: Option<DownloadLink>)
      ensures link.Some? <==> downloadUrl.Some? && downloadUrl.value != ""
      ensures link.Some? ==> link.value == DownloadLink(downloadUrl.value, ArchiveName)
    {
      if downloadUrl.Some? && downloadUrl.value != "" {
        link := Some(DownloadLink(downloadUrl.value, ArchiveName));
      } else {
        link := None;
      }
    }

    /** `restart`, from any state at all: back to the page as loaded. */
    method Restart()
      modifies this`selectedFiles, this`currentSessionId, this`downloadUrl, this`quality, this`qualityLabel
      modifies this`previewVisible, this`controlsVisible, this`progressVisible, this`resultVisible
      modifies this`errorVisible, this`uploadVisible
      ensures Valid()
      ensures selectedFiles == [] && currentSessionId == None && downloadUrl == None
      ensures quality == DefaultQuality && qualityLabel == DefaultQuality
      ensures !previewVisible && !controlsVisible && !progressVisible
      ensures !resultVisible && !errorVisible && uploadVisible
    {
      selectedFiles := [];
      currentSessionId := None;
      downloadUrl := None;
      quality, qualityLabel := DefaultQuality, DefaultQuality;
      previewVisible, controlsVisible, progressVisible := false, false, false;
      resultVisible, errorVisible := false, false;
      uploadVisible := true;
    }
  }

  // ---------------------------------------------------------------------
  // Whole runs of the controller
  // ---------------------------------------------------------------------

  /** A freshly loaded page after a selection holding at least one image. */
  method LoadAndSelect(files: seq<CandidateFile>) returns (app: ImageCompressor)
    requires exists f :: f in files && IsImageFile(f)
    ensures fresh(app) && app.Valid()
    ensures app.selectedFiles == Filter(IsImageFile, files) && app.selectedFiles != []
    ensures app.quality == DefaultQuality && app.progressTrace == []
  {
    app := new ImageCompressor();
    FilterKeepsNone(IsImageFile, files);
    app.HandleFileSelect(files);
  }

  /** A batch of three images and a completed request: the progress bar
      reads 0, 10, 90 and 100 in that order before the result section shows
      three files at the default quality, and the download link points at
      the service's URL under the archive's fixed name. */
  method SuccessfulRun(files: seq<CandidateFile>, url: string)
    returns (shownCount: int, shownQuality: string, link: Option<DownloadLink>, ghost trace: seq<int>)
    requires |files| == 3 && forall f :: f in files ==> IsImageFile(f)
    requires url != ""
    ensures trace == [0, 10, 90, 100]
    ensures shownCount == 3 && shownQuality == "80%"
    ensures link == Some(DownloadLink(url, ArchiveName))
  {
    assert files[0] in files;
    var app := LoadAndSelect(files);
    var request, quality := app.CompressImages();
    var scheduled := app.ReceiveResponse(quality, Completed(3, url));
    trace := app.progressTrace;
    app.ShowResult(scheduled.value);
    link := app.DownloadFiles();
    shownCount, shownQuality := app.processedFiles, app.finalQuality;
  }

  /** A service that answers with an error: its text is shown, and the retry
      button sends a request identical to the first. */
  method RejectedRunThenRetry(files: seq<CandidateFile>, message: string)
    returns (shownError: string, first: Option<Request>, retried: Option<Request>)
    requires exists f :: f in files && IsImageFile(f)
    requires message != ""
    ensures shownError == message
    ensures first.Some? && retried == first
  {
    var app := LoadAndSelect(files);
    var quality, quality2;
    first, quality := app.CompressImages();
    var scheduled := app.ReceiveResponse(quality, Rejected(Some(message)));
    shownError := app.errorMessage;
    retried, quality2 := app.CompressImages();
    FormDataUnique(first.value.parts, retried.value.parts, app.selectedFiles, quality);
  }

  /** Two clicks before the answer arrives send two identical requests, and
      the progress bar restarts from 0: nothing marks a request as in
      flight. */
  method DoubleSubmit(files: seq<CandidateFile>)
    returns (first: Option<Request>, second: Option<Request>, ghost trace: seq<int>)
    requires exists f :: f in files && IsImageFile(f)
    ensures first.Some? && second == first
    ensures trace == [0, 10, 0, 10]
  {
    var app := LoadAndSelect(files);
    var q1, q2;
    first, q1 := app.CompressImages();
    second, q2 := app.CompressImages();
    FormDataUnique(first.value.parts, second.value.parts, app.selectedFiles, q1);
    trace := app.progressTrace;
  }

  /** A restart while the request is out does not stop it: the late answer
      and its timer still bring up the result section, over an empty
      selection, with a working download link. */
  method LateResultAfterRestart(files: seq<CandidateFile>, count: int, url: string)
    returns (resultShown: bool, selection: seq<CandidateFile>, link: Option<DownloadLink>)
    requires exists f :: f in files && IsImageFile(f)
    requires url != ""
    ensures resultShown && selection == []
    ensures link == Some(DownloadLink(url, ArchiveName))
  {
    var app := LoadAndSelect(files);
    var request, quality := app.CompressImages();
    app.Restart();
    var scheduled := app.ReceiveResponse(quality, Completed(count, url));
    app.ShowResult(scheduled.value);
    link := app.DownloadFiles();
    resultShown, selection := app.resultVisible, app.selectedFiles;
  }

  /** A selection and a quality determine the form body. */
  lemma FormDataUnique(a: seq<FormPart>, b: seq<FormPart>, files: seq<CandidateFile>, quality: string)
    requires IsFormDataFor(a, files, quality) && IsFormDataFor(b, files, quality)
    ensures a == b
  {
    assert forall i :: 0 <= i < |a| ==> a[i] == b[i];
  }
}
