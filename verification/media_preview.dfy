/** The media thumbnail: with no source it shows a placeholder; otherwise it
    shows an image or a video, either as the `type` prop says or as guessed
    from the URL's extension. */
module MediaPreview {
  import opened Common
  import opened Text
  import FileUpload

  const VideoExts: seq<string> := ["mp4", "webm", "mov", "avi", "mkv", "flv"]

  datatype MediaType = Image | Video

  /** The `type` prop: 'auto' guesses, 'image' and 'video' are taken as given. */
  datatype TypeProp = Auto | Fixed(t: MediaType)

  /** `getMediaType`: a video when the lower-cased text after the last dot is
      a video extension, an image otherwise. */
  function GetMediaType(url: string): (r: MediaType)
    ensures r == Video <==> Lower(AfterLast(url, '.')) in VideoExts
  {
    if Lower(AfterLast(url, '.')) in VideoExts then Video else Image
  }

  /** Only the last dot-separated segment decides, so the rest of the URL
      (host, path, other dots) never changes the guess. */
  lemma {:induction false} LastSegmentDecides(p: string, e: string)
    requires '.' !in e
    ensures GetMediaType(p + "." + e) == GetMediaType(e)
  {
    assert p + "." + e == p + ['.'] + e;
    AfterLastOfJoined(p, '.', e);
    AfterLastOfFree(e, '.');
  }

  /** The extension is matched without regard to ASCII case. */
  lemma {:induction false} CaseInsensitive(p: string, e: string)
    requires '.' !in e
    ensures GetMediaType(p + "." + e) == GetMediaType(p + "." + Lower(e))
  {
    LowerKeepsDot(e);
    LastSegmentDecides(p, e);
    LastSegmentDecides(p, Lower(e));
    AfterLastOfFree(e, '.');
    AfterLastOfFree(Lower(e), '.');
    LowerIdempotent(e);
  }

  /** Every name the upload control counts as a video file is shown as a video
      here too; the converse fails for ".flv", which only this list holds. */
  lemma {:induction false} UploadVideoIsPreviewVideo(name: string)
    ensures FileUpload.IsVideoFile(name) ==> GetMediaType(name) == Video
    ensures !FileUpload.IsVideoFile(name + ".flv") && GetMediaType(name + ".flv") == Video
  {
    if FileUpload.IsVideoFile(name) {
      var ext := Lower(AfterLast(name, '.'));
      assert FileUpload.Extension(name) == "." + ext;
      UploadVideoExtsListed(ext);
    }
    FlvIsOnlyHere(name);
  }

  /** The upload control's video extensions, without their dots, are all on
      this list. */
  lemma {:induction false} UploadVideoExtsListed(x: string)
    requires "." + x in FileUpload.VideoExts
    ensures x in VideoExts
  {
    var k :| 0 <= k < |FileUpload.VideoExts| && FileUpload.VideoExts[k] == "." + x;
    assert FileUpload.VideoExts[k] == "." + VideoExts[k];
    assert x == ("." + x)[1..] == ("." + VideoExts[k])[1..] == VideoExts[k];
  }

  lemma {:induction false} FlvIsOnlyHere(p: string)
    ensures !FileUpload.IsVideoFile(p + ".flv") && GetMediaType(p + ".flv") == Video
  {
    var flv := "flv";
    assert p + ".flv" == p + "." + flv;
    FlvFacts();
    FileUpload.VideoByLastSegment(p, flv);
    LastSegmentDecides(p, flv);
    AfterLastOfFree(flv, '.');
  }

  lemma {:induction false} FlvFacts()
    ensures '.' !in "flv" && Lower("flv") == "flv"
    ensures "." + "flv" !in FileUpload.VideoExts && "flv" in VideoExts
  {
    FlvLower();
    assert "flv" == VideoExts[5];
    var dotted := "." + "flv";
    assert dotted[1] == 'f';
    forall k | 0 <= k < |FileUpload.VideoExts| ensures FileUpload.VideoExts[k] != dotted {
      assert FileUpload.VideoExts[k][1] != 'f';
    }
  }

  lemma {:induction false} FlvLower()
    ensures Lower("flv") == "flv"
  {
    var flv := "flv";
    assert |Lower(flv)| == 3;
    assert Lower(flv)[0] == 'f' && Lower(flv)[1] == 'l' && Lower(flv)[2] == 'v';
  }

  /** What the component renders. */
  datatype View =
      /** The caller's placeholder (when it is truthy) or the default box. */
    | Placeholder(custom: bool)
    | Thumbnail(media: MediaType, src: string)

  /** An absent or empty `src` shows the placeholder; otherwise the `type`
      prop wins over the guess from the URL. */
  function Render(src: Option<string>, typ: TypeProp, hasPlaceholder: bool): (r: View)
    ensures !Present(src) <==> r.Placeholder?
    ensures r.Placeholder? ==> r.custom == hasPlaceholder
    ensures r.Thumbnail? ==> r.src == src.value
    ensures r.Thumbnail? && typ.Fixed? ==> r.media == typ.t
    ensures r.Thumbnail? && typ.Auto? ==> (r.media == Video <==> Lower(AfterLast(src.value, '.')) in VideoExts)
  {
    if !Present(src) then Placeholder(hasPlaceholder)
    else
      var media := match typ
        case Auto => GetMediaType(src.value)
        case Fixed(t) => t;
      Thumbnail(media, src.value)
  }
}
