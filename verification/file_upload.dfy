/** The file-upload control: it checks the chosen file's extension and size,
    asks the owner for a pre-signed upload URL keyed by the extension, uploads,
    and keeps the uploaded file's URL and name for display and preview. The
    network calls are events of the model; the video-duration probe is not
    modelled. */
module FileUpload {
  import opened Common
  import opened Text

  const VideoExts: seq<string> := [".mp4", ".webm", ".mov", ".avi", ".mkv"]
  const ImageExts: seq<string> := [".jpg", ".jpeg", ".png", ".gif", ".webp", ".svg", ".bmp"]
  const DefaultMaxSizeMb: nat := 500
  const BytesPerMb: nat := 1048576

  const UploadSucceededText := "文件上传成功"
  const UploadFailedText := "文件上传失败"
  const NotAnErrorText := "上传失败"

  /** What the current file is shown as: `previewType` 'none' shows nothing. */
  datatype FileKind = Image | Video | Other | NoKind

  datatype PreviewType = Auto | ImagePreview | VideoPreview | NoPreview

  datatype File = File(name: string, size: nat)

  /** `'.' + name.split('.').pop().toLowerCase()`: a dot and the lower-cased
      text after the last dot, or a dot and the whole lower-cased name when
      there is no dot. */
  function Extension(name: string): (r: string)
    ensures |r| >= 1 && r[0] == '.' && '.' !in r[1..]
    ensures |r| - 1 <= |name|
    ensures r[1..] == Lower(name[|name| - (|r| - 1)..])
    ensures |r| - 1 < |name| ==> name[|name| - |r|] == '.'
  {
    var tail := AfterLast(name, '.');
    var low := Lower(tail);
    LowerKeepsDot(tail);
    var r := ['.'] + low;
    assert r[0] == '.' && r[1..] == low && |r| - 1 == |tail|;
    assert name[|name| - |tail|..] == tail;
    r
  }

  /** `isVideoFile`: the extension is one of the video extensions. */
  function IsVideoFile(name: string): (r: bool)
    ensures r ==> |Extension(name)| in {4, 5}
    ensures r ==> |name| >= 3
  {
    VideoExtLengths();
    Extension(name) in VideoExts
  }

  lemma {:induction false} VideoExtLengths()
    ensures forall k :: 0 <= k < |VideoExts| ==> 4 <= |VideoExts[k]| <= 5
  {
    forall k | 0 <= k < |VideoExts| ensures 4 <= |VideoExts[k]| <= 5 {
      assert VideoExts[k] in {".mp4", ".webm", ".mov", ".avi", ".mkv"};
    }
  }

  /** Only the text after the last dot decides which names are video files. */
  lemma {:induction false} VideoByLastSegment(p: string, e: string)
    requires '.' !in e
    ensures IsVideoFile(p + "." + e) <==> "." + Lower(e) in VideoExts
  {
    AfterLastOfJoined(p, '.', e);
    assert p + "." + e == p + ['.'] + e;
  }

  /** A name without a dot is its own extension, so a bare "mp4" counts as a
      video file. */
  lemma {:induction false} DotlessNameIsVideo(name: string)
    requires '.' !in name
    ensures IsVideoFile(name) <==> "." + Lower(name) in VideoExts
  {
    AfterLastOfFree(name, '.');
  }

  /** `e.slice(1)`: all but the first character (nothing of an empty string). */
  function SliceOne(e: string): (r: string)
    ensures |e| > 0 ==> e == [e[0]] + r
    ensures |e| == 0 ==> r == ""
  {
    if |e| == 0 then "" else e[1..]
  }

  /** `getFileType(url, accept)` exactly as written: it consults the URL's
      extension, but only inside conditions that the accept list alone
      already settles. */
  function GetFileType(url: string, accept: seq<string>): (r: FileKind)
    ensures r != NoKind
    ensures r == Image ==> exists a :: 0 <= a < |accept| && accept[a] in ImageExts
    ensures r == Video ==> exists a :: 0 <= a < |accept| && accept[a] in VideoExts
  {
    var ext := Lower(AfterLast(url, '.'));
    if (exists k :: 0 <= k < |ImageExts| && (SliceOne(ImageExts[k]) == ext || ImageExts[k] in accept))
       && (exists a :: 0 <= a < |accept| && accept[a] in ImageExts) then Image
    else if (exists k :: 0 <= k < |VideoExts| && (SliceOne(VideoExts[k]) == ext || VideoExts[k] in accept))
       && (exists a :: 0 <= a < |accept| && accept[a] in VideoExts) then Video
    else Other
  }

  ghost predicate ListsSome(accept: seq<string>, exts: seq<string>) {
    exists a :: 0 <= a < |accept| && accept[a] in exts
  }

  /** The detected type depends on the accept list only: 'image' exactly
      when it lists an image extension, else 'video' exactly when it lists a
      video extension, else 'other' (always 'other' for an empty list). */
  lemma {:induction false} FileTypeFollowsAccept(url: string, accept: seq<string>)
    ensures GetFileType(url, accept) == Image <==> ListsSome(accept, ImageExts)
    ensures GetFileType(url, accept) == Video <==> !ListsSome(accept, ImageExts) && ListsSome(accept, VideoExts)
    ensures |accept| == 0 ==> GetFileType(url, accept) == Other
  {
    if ListsSome(accept, ImageExts) {
      var a :| 0 <= a < |accept| && accept[a] in ImageExts;
      var k :| 0 <= k < |ImageExts| && ImageExts[k] == accept[a];
      assert ImageExts[k] in accept;
    }
    if ListsSome(accept, VideoExts) {
      var a :| 0 <= a < |accept| && accept[a] in VideoExts;
      var k :| 0 <= k < |VideoExts| && VideoExts[k] == accept[a];
      assert VideoExts[k] in accept;
    }
  }

  /** `currentFileType`: a fixed `previewType` wins over detection. */
  function CurrentFileType(previewType: PreviewType, fileUrl: string, accept: seq<string>): (r: FileKind)
    ensures previewType == ImagePreview ==> r == Image
    ensures previewType == VideoPreview ==> r == Video
    ensures previewType == NoPreview ==> r == NoKind
    ensures previewType == Auto ==> r != NoKind && (r == Image <==> ListsSome(accept, ImageExts))
  {
    FileTypeFollowsAccept(fileUrl, accept);
    match previewType
    case Auto => GetFileType(fileUrl, accept)
    case ImagePreview => Image
    case VideoPreview => Video
    case NoPreview => NoKind
  }

  /** `canPreview`: preview enabled, a file present, and an image or video. */
  function CanPreview(enablePreview: bool, fileUrl: string, previewType: PreviewType, accept: seq<string>): (r: bool)
    ensures r ==> enablePreview && fileUrl != "" && previewType != NoPreview
    ensures previewType == Auto ==>
      (r <==> enablePreview && fileUrl != "" && (ListsSome(accept, ImageExts) || ListsSome(accept, VideoExts)))
    ensures enablePreview && fileUrl != "" && (previewType == ImagePreview || previewType == VideoPreview) ==> r
  {
    FileTypeFollowsAccept(fileUrl, accept);
    var kind := CurrentFileType(previewType, fileUrl, accept);
    enablePreview && fileUrl != "" && (kind == Image || kind == Video)
  }

  // ----------------------------------------------------------- the control

  datatype State = State(uploading: bool, progress: nat, fileUrl: string, fileName: string)

  datatype Effect =
    | ErrorToast(text: string)
    | SuccessToast(text: string)
      /** `getUploadUrl(fileType)`, the start of an upload. */
    | RequestUploadUrl(fileType: string)
      /** `onSuccess({fileUrl, fileName})`. */
    | Succeeded(fileUrl: string, fileName: string)
      /** `onError(error)`. */
    | ErrorReported(message: string)
      /** `onClear()`. */
    | Cleared

  datatype Step = Step(state: State, effects: seq<Effect>)

  /** How the upload of an accepted file ended: with the URL the owner handed
      out, or with a thrown value (`None` when it was not an `Error`). */
  datatype UploadResult = Uploaded(fileUrl: string) | UploadFailed(error: Option<string>)

  function Initial(defaultFileUrl: string, defaultFileName: string): State {
    State(false, 0, defaultFileUrl, defaultFileName)
  }

  /** The file's extension is on a non-empty accept list (an empty list
      accepts everything). */
  predicate ExtensionAllowed(name: string, accept: seq<string>) {
    |accept| == 0 || Extension(name) in accept
  }

  /** The size check `size / 2^20 > maxSize`, in exact integers. */
  predicate TooLarge(file: File, maxSizeMb: nat) {
    file.size > maxSizeMb * BytesPerMb
  }

  /** `handleFileChange`, up to the start of the upload. A wrong extension or
      an oversized file is refused with a toast, and no upload starts;
      otherwise the control starts uploading from 0 % and asks for an upload
      URL keyed by the extension without its dot. */
  function FileChosen(s: State, file: Option<File>, accept: seq<string>, maxSizeMb: nat): (r: Step)
    ensures file.None? ==> r == Step(s, [])
    ensures file.Some? && !ExtensionAllowed(file.value.name, accept) ==>
      r == Step(s, [ErrorToast("请上传 " + Join(accept, ", ") + " 格式的文件")])
    ensures file.Some? && ExtensionAllowed(file.value.name, accept) && TooLarge(file.value, maxSizeMb) ==>
      r == Step(s, [ErrorToast("文件大小不能超过 " + NatToString(maxSizeMb) + "MB")])
    ensures (exists t :: RequestUploadUrl(t) in r.effects) <==>
      file.Some? && ExtensionAllowed(file.value.name, accept) && !TooLarge(file.value, maxSizeMb)
    ensures file.Some? && ExtensionAllowed(file.value.name, accept) && !TooLarge(file.value, maxSizeMb) ==>
      && r.state == s.(uploading := true, progress := 0)
      && r.effects == [RequestUploadUrl(Extension(file.value.name)[1..])]
      && "." + Extension(file.value.name)[1..] == Extension(file.value.name)
  {
    match file
    case None => Step(s, [])
    case Some(f) =>
      if !ExtensionAllowed(f.name, accept) then
        Step(s, [ErrorToast("请上传 " + Join(accept, ", ") + " 格式的文件")])
      else if TooLarge(f, maxSizeMb) then
        Step(s, [ErrorToast("文件大小不能超过 " + NatToString(maxSizeMb) + "MB")])
      else
        var ext := Extension(f.name);
        Step(s.(uploading := true, progress := 0), [RequestUploadUrl(ext[1..])])
  }

  /** With the default limit of 500 MiB, a file of exactly 500 MiB starts
      an upload and one byte more is refused with a toast. */
  lemma {:induction false} DefaultLimitIsInclusive(s: State, name: string, accept: seq<string>)
    requires ExtensionAllowed(name, accept)
    ensures var r := FileChosen(s, Some(File(name, DefaultMaxSizeMb * BytesPerMb)), accept, DefaultMaxSizeMb);
      r.state.uploading && exists t :: RequestUploadUrl(t) in r.effects
    ensures var r := FileChosen(s, Some(File(name, DefaultMaxSizeMb * BytesPerMb + 1)), accept, DefaultMaxSizeMb);
      r.state == s && |r.effects| == 1 && r.effects[0].ErrorToast?
  {
    var r := FileChosen(s, Some(File(name, DefaultMaxSizeMb * BytesPerMb)), accept, DefaultMaxSizeMb);
    assert RequestUploadUrl(Extension(name)[1..]) in r.effects;
  }

  /** The progress callback during the upload. */
  function ProgressReported(s: State, percent: nat): (r: State)
    ensures r.progress == percent
    ensures r.(progress := s.progress) == s
  {
    s.(progress := percent)
  }

  /** The end of an upload. On success the new URL and the file's name are
      kept and reported to `onSuccess`; on failure they stay as they were and
      `onError` hears the error. Either way uploading ends. */
  function UploadFinished(s: State, file: File, result: UploadResult): (r: Step)
    ensures !r.state.uploading && r.state.progress == s.progress
    ensures result.Uploaded? ==>
      && r.state.fileUrl == result.fileUrl && r.state.fileName == file.name
      && r.effects == [Succeeded(result.fileUrl, file.name), SuccessToast(UploadSucceededText)]
    ensures result.UploadFailed? ==>
      var message := result.error.GetOr(NotAnErrorText);
      && r.state.fileUrl == s.fileUrl && r.state.fileName == s.fileName
      && r.effects == [ErrorReported(message), ErrorToast(if message == "" then UploadFailedText else message)]
  {
    match result
    case Uploaded(url) =>
      Step(s.(uploading := false, fileUrl := url, fileName := file.name),
           [Succeeded(url, file.name), SuccessToast(UploadSucceededText)])
    case UploadFailed(error) =>
      var message := error.GetOr(NotAnErrorText);
      Step(s.(uploading := false), [ErrorReported(message), ErrorToast(OrElse(Some(message), UploadFailedText))])
  }

  /** `handleClear`: URL, name and progress are reset, then `onClear` runs. */
  function Clear(s: State): (r: Step)
    ensures r.state.fileUrl == "" && r.state.fileName == "" && r.state.progress == 0
    ensures r.state.uploading == s.uploading
    ensures r.effects == [Cleared]
  {
    Step(s.(fileUrl := "", fileName := "", progress := 0), [Cleared])
  }

  /** A successful upload of an accepted file leaves it previewable exactly
      when preview is on and the type (forced or detected) is image or video;
      clearing makes nothing previewable. */
  lemma {:induction false} UploadThenClear(s: State, file: File, url: string, enablePreview: bool, previewType: PreviewType, accept: seq<string>)
    requires url != ""
    ensures var t := UploadFinished(s, file, Uploaded(url)).state;
      var kind := CurrentFileType(previewType, url, accept);
      CanPreview(enablePreview, t.fileUrl, previewType, accept) <==> enablePreview && kind in {Image, Video}
    ensures !CanPreview(enablePreview, Clear(s).state.fileUrl, previewType, accept)
  { }
}
