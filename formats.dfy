/** The format catalog built by `get_video_info` (app.py:37-140) and the validation done
    by its route (app.py:148-167). The result of the extraction library's `extract_info`
    is an input: either its error message or an `Info` record. */
module Formats {
  import opened Wrappers
  import opened Strings
  import opened Ranking
  import opened VideoId

  /** One raw format descriptor. `None` stands for a key that is absent or null. */
  datatype Format = Format(
    formatId: Option<string>,
    ext: Option<string>,
    url: Option<string>,
    resolution: Option<string>,
    vcodec: Option<string>,
    acodec: Option<string>,
    height: Option<int>,
    fps: Option<real>,
    abr: Option<real>,
    filesize: Option<int>,
    filesizeApprox: Option<int>)

  /** What `extract_info` returns; a missing `formats` key is the empty sequence. */
  datatype Info = Info(
    formats: seq<Format>,
    id: Option<string>,
    title: Option<string>,
    thumbnail: Option<string>,
    duration: Option<real>,
    uploader: Option<string>)

  datatype VideoStream = VideoStream(
    itag: string,
    resolution: string,
    filesize: int,
    mimeType: string,
    formatLabel: string,
    url: string,
    vcodec: string,
    acodec: string,
    fps: real,
    height: int,
    isAdaptive: bool,
    videoUrl: string,
    audioUrl: Option<string>)

  datatype AudioStream = AudioStream(
    itag: string,
    abr: real,
    filesize: int,
    url: string,
    acodec: string)

  datatype Catalog = Catalog(
    title: string,
    thumbnail: string,
    duration: real,
    author: string,
    url: string,
    videoId: string,
    video: seq<VideoStream>,
    audio: seq<AudioStream>)

  datatype InfoError =
    | MissingUrl                      // 'URL non fournie'
    | InvalidUrl                      // no video id in the URL
    | ExtractionFailed(message: string)
    | MissingBestAudio                // `best_audio.get` on None for an adaptive stream

  // ---- classification of one descriptor (literal comparisons with 'none') ----

  predicate IsVideoBearing(f: Format) { f.vcodec != Some("none") }

  /** `is_adaptive`: a video descriptor without audio. */
  predicate IsVideoOnly(f: Format) { f.acodec == Some("none") }

  predicate IsAudioOnly(f: Format) { f.acodec != Some("none") && f.vcodec == Some("none") }

  /** `f.get('height', 0) or 0` */
  function Height(f: Format): int { f.height.GetOr(0) }

  /** `f.get('abr', 0) or 0` */
  function Abr(f: Format): real { f.abr.GetOr(0.0) }

  /** `f.get('filesize') or f.get('filesize_approx', 0) or 0`: the exact size when it is known
      and non-zero, otherwise the approximate one; 0 only when neither is known. */
  function ResolvedSize(f: Format): (r: int)
    ensures f.filesize.Some? && f.filesize.value != 0 ==> r == f.filesize.value
    ensures f.filesize.GetOr(0) == 0 ==> r == f.filesizeApprox.GetOr(0)
    ensures r == 0 <==> f.filesize.GetOr(0) == 0 && f.filesizeApprox.GetOr(0) == 0
  {
    if f.filesize.Some? && f.filesize.value != 0 then f.filesize.value else f.filesizeApprox.GetOr(0)
  }

  predicate QualifiesAsVideo(f: Format) { IsVideoBearing(f) && Height(f) > 0 }

  predicate QualifiesAsAudio(f: Format) { IsAudioOnly(f) && Abr(f) > 0.0 }

  // ---- the steps of the catalog, as functions of the descriptor list ----

  /** The best-audio loop: an audio-only descriptor replaces the current best only when its
      bitrate is strictly higher. */
  function BestAudio(fs: seq<Format>): (r: Option<Format>)
    ensures r.Some? ==> IsAudioOnly(r.value) && r.value in fs
  {
    if fs == [] then None
    else
      var best := BestAudio(fs[..|fs| - 1]);
      var f := fs[|fs| - 1];
      if IsAudioOnly(f) && (best.None? || Abr(f) > Abr(best.value)) then Some(f) else best
  }

  /** The video stream record built for a video-bearing descriptor: it carries the
      descriptor's height; it is adaptive exactly when the descriptor has no audio, and then
      its size adds the best audio's and its audio URL is the best audio's; its label names
      the height and the container. */
  function MakeVideo(f: Format, best: Option<Format>): (r: VideoStream)
    ensures r.height == Height(f) && (r.isAdaptive <==> IsVideoOnly(f))
    ensures r.filesize == ResolvedSize(f) + (if r.isAdaptive && best.Some? then ResolvedSize(best.value) else 0)
    ensures r.isAdaptive && best.Some? ==> r.audioUrl == best.value.url
    ensures !r.isAdaptive ==> r.audioUrl.None?
    ensures r.videoUrl == r.url
    ensures r.formatLabel == IntToString(r.height) + "p - " + r.mimeType
    ensures f.resolution.None? ==> r.resolution == IntToString(r.height) + "p"
  {
    var height := Height(f);
    var ext := f.ext.GetOr("mp4");
    var adaptive := IsVideoOnly(f);
    var audioSize := if adaptive && best.Some? then ResolvedSize(best.value) else 0;
    VideoStream(
      itag := f.formatId.GetOr(""),
      resolution := f.resolution.GetOr(IntToString(height) + "p"),
      filesize := ResolvedSize(f) + audioSize,
      mimeType := ext,
      formatLabel := IntToString(height) + "p - " + ext,
      url := f.url.GetOr(""),
      vcodec := f.vcodec.GetOr(""),
      acodec := f.acodec.GetOr(""),
      fps := f.fps.GetOr(0.0),
      height := height,
      isAdaptive := adaptive,
      videoUrl := f.url.GetOr(""),
      audioUrl := if adaptive && best.Some? then best.value.url else None)
  }

  /** The audio stream record: the descriptor's bitrate, which is positive for a qualifying
      descriptor, and its resolved size. */
  function MakeAudio(f: Format): (r: AudioStream)
    ensures r.abr == Abr(f) && r.filesize == ResolvedSize(f)
    ensures QualifiesAsAudio(f) ==> r.abr > 0.0
  {
    AudioStream(
      itag := f.formatId.GetOr(""),
      abr := Abr(f),
      filesize := ResolvedSize(f),
      url := f.url.GetOr(""),
      acodec := f.acodec.GetOr(""))
  }

  /** The video streams appended by the main loop, in descriptor order; the loop fails at
      the first adaptive stream with a height when there is no best audio. */
  function VideoCandidates(fs: seq<Format>, best: Option<Format>): (r: Result<seq<VideoStream>, InfoError>)
    ensures r.Failure? ==> r.error == MissingBestAudio
    ensures r.Success? ==> |r.value| <= |fs|
  {
    if fs == [] then Success([])
    else
      match VideoCandidates(fs[..|fs| - 1], best)
      case Failure(e) => Failure(e)
      case Success(vs) =>
        var f := fs[|fs| - 1];
        if !QualifiesAsVideo(f) then Success(vs)
        else if IsVideoOnly(f) && best.None? then Failure(MissingBestAudio)
        else Success(vs + [MakeVideo(f, best)])
  }

  /** The audio-only descriptors with a positive bitrate, in order. */
  function AudioFormats(fs: seq<Format>): seq<Format> {
    if fs == [] then []
    else AudioFormats(fs[..|fs| - 1]) + (if QualifiesAsAudio(fs[|fs| - 1]) then [fs[|fs| - 1]] else [])
  }

  /** The audio streams appended by the main loop. */
  function AudioCandidates(fs: seq<Format>): seq<AudioStream> {
    var af := AudioFormats(fs);
    seq(|af|, i requires 0 <= i < |af| => MakeAudio(af[i]))
  }

  function HeightKey(v: VideoStream): real { v.height as real }

  function AbrKey(a: AudioStream): real { a.abr }

  function HeightsOf(s: seq<VideoStream>): set<int> {
    if s == [] then {} else HeightsOf(s[..|s| - 1]) + {s[|s| - 1].height}
  }

  /** The `seen_resolutions` loop: a stream is kept when no earlier stream has its height.
      No height is lost. */
  function DedupByHeight(s: seq<VideoStream>): (r: seq<VideoStream>)
    ensures |r| <= |s|
    ensures HeightsOf(r) == HeightsOf(s)
  {
    if s == [] then []
    else
      var init, last := s[..|s| - 1], s[|s| - 1];
      if last.height in HeightsOf(init) then DedupByHeight(init)
      else
        var kept := DedupByHeight(init);
        assert (kept + [last])[..|kept|] == kept;
        kept + [last]
  }

  /** The reply of `get_video_info`: an extraction error is passed on; any other failure is
      the missing best audio; a catalog carries the request's URL and the info's metadata,
      with `''`, 0 and `Unknown` where it has none. */
  function Normalize(url: string, extracted: Result<Info, string>): (r: Result<Catalog, InfoError>)
    ensures extracted.Failure? ==> r == Failure(ExtractionFailed(extracted.error))
    ensures extracted.Success? && r.Failure? ==> r.error == MissingBestAudio
    ensures r.Success? ==> extracted.Success? && r.value.url == url
    ensures r.Success? ==> var info := extracted.value;
              && r.value.title == info.title.GetOr("") && r.value.thumbnail == info.thumbnail.GetOr("")
              && r.value.duration == info.duration.GetOr(0.0) && r.value.author == info.uploader.GetOr("Unknown")
              && r.value.videoId == info.id.GetOr("")
  {
    match extracted
    case Failure(message) => Failure(ExtractionFailed(message))
    case Success(info) =>
      var best := BestAudio(info.formats);
      match VideoCandidates(info.formats, best)
      case Failure(e) => Failure(e)
      case Success(vs) =>
        Success(Catalog(
          title := info.title.GetOr(""),
          thumbnail := info.thumbnail.GetOr(""),
          duration := info.duration.GetOr(0.0),
          author := info.uploader.GetOr("Unknown"),
          url := url,
          videoId := info.id.GetOr(""),
          video := DedupByHeight(SortDesc(vs, HeightKey)),
          audio := SortDesc(AudioCandidates(info.formats), AbrKey)))
  }

  /** The main loop fails exactly when some adaptive descriptor with a height meets the
      absence of a best audio. */
  lemma {:induction false} VideoCandidatesFailure(fs: seq<Format>, best: Option<Format>)
    ensures VideoCandidates(fs, best).Failure? <==>
              best.None? && exists i :: 0 <= i < |fs| && QualifiesAsVideo(fs[i]) && IsVideoOnly(fs[i])
    ensures VideoCandidates(fs, best).Failure? ==> VideoCandidates(fs, best).error == MissingBestAudio
  {
    if fs != [] {
      var init := fs[..|fs| - 1];
      VideoCandidatesFailure(init, best);
      assert forall i :: 0 <= i < |init| ==> init[i] == fs[i];
    }
  }

  /** The first pass of `get_video_info`: the audio-only format of highest bitrate, the
      earliest among equals. */
  method PickBestAudio(fs: seq<Format>) returns (best: Option<Format>)
    ensures best == BestAudio(fs)
  {
    best := None;
    var i := 0;
    while i < |fs|
      invariant 0 <= i <= |fs|
      invariant best == BestAudio(fs[..i])
    {
      var f := fs[i];
      if IsAudioOnly(f) && (best.None? || Abr(f) > Abr(best.value)) {
        best := Some(f);
      }
      assert fs[..i + 1][..i] == fs[..i];
      i := i + 1;
    }
    assert fs[..|fs|] == fs;
  }

  /** The de-duplication pass: keeps the first stream of every height, tracking the heights
      seen so far. */
  method KeepFirstPerHeight(vs: seq<VideoStream>) returns (unique: seq<VideoStream>)
    ensures unique == DedupByHeight(vs)
  {
    var seen: set<int> := {};
    unique := [];
    var i := 0;
    while i < |vs|
      invariant 0 <= i <= |vs|
      invariant seen == HeightsOf(vs[..i])
      invariant unique == DedupByHeight(vs[..i])
    {
      var stream := vs[i];
      assert vs[..i + 1][..i] == vs[..i];
      if stream.height !in seen {
        seen := seen + {stream.height};
        unique := unique + [stream];
      }
      i := i + 1;
    }
    assert vs[..|vs|] == vs;
  }

  /** The main pass of `get_video_info`: appends a video stream for every video-bearing
      descriptor with a height and an audio stream for every audio-only descriptor with a
      bitrate; `missingAudio` is the exception raised at an adaptive stream when there is
      no best audio. */
  method CollectStreams(fs: seq<Format>, best: Option<Format>)
    returns (missingAudio: bool, videoStreams: seq<VideoStream>, audioStreams: seq<AudioStream>)
    ensures missingAudio <==> VideoCandidates(fs, best).Failure?
    ensures !missingAudio ==> VideoCandidates(fs, best) == Success(videoStreams)
    ensures !missingAudio ==> audioStreams == AudioCandidates(fs)
  {
    missingAudio := false;
    videoStreams := [];
    audioStreams := [];
    var i := 0;
    while i < |fs|
      invariant 0 <= i <= |fs|
      invariant VideoCandidates(fs[..i], best) == Success(videoStreams)
      invariant audioStreams == AudioCandidates(fs[..i])
    {
      var f := fs[i];
      assert fs[..i + 1][..i] == fs[..i];
      ghost var af := AudioFormats(fs[..i]);
      if IsVideoBearing(f) {
        if Height(f) > 0 {
          if IsVideoOnly(f) && best.None? {
            VideoCandidatesFailure(fs, best);
            return true, videoStreams, audioStreams;
          }
          videoStreams := videoStreams + [MakeVideo(f, best)];
        }
      } else if IsAudioOnly(f) && Abr(f) > 0.0 {
        assert AudioFormats(fs[..i + 1]) == af + [f];
        audioStreams := audioStreams + [MakeAudio(f)];
      }
      i := i + 1;
    }
    assert fs[..|fs|] == fs;
  }

  /** `get_video_info`, step by step: the best-audio loop, the main loop appending video and
      audio streams, the two sorts and the de-duplication loop. */
  method GetVideoInfo(url: string, extracted: Result<Info, string>) returns (r: Result<Catalog, InfoError>)
    ensures r == Normalize(url, extracted)
  {
    if extracted.Failure? {
      return Failure(ExtractionFailed(extracted.error));
    }
    var info := extracted.value;
    var fs := info.formats;

    var best := PickBestAudio(fs);

    var missingAudio, videoStreams, audioStreams := CollectStreams(fs, best);
    if missingAudio {
      return Failure(MissingBestAudio);
    }

    videoStreams := SortDesc(videoStreams, HeightKey);
    audioStreams := SortDesc(audioStreams, AbrKey);

    var unique := KeepFirstPerHeight(videoStreams);

    r := Success(Catalog(
      title := info.title.GetOr(""),
      thumbnail := info.thumbnail.GetOr(""),
      duration := info.duration.GetOr(0.0),
      author := info.uploader.GetOr("Unknown"),
      url := url,
      videoId := info.id.GetOr(""),
      video := unique,
      audio := audioStreams));
  }

  /** The `/get-video-info` route: an empty URL or one without a video id is refused before
      the extraction library is consulted. */
  method GetVideoInfoRoute(url: string, extracted: Result<Info, string>) returns (r: Result<Catalog, InfoError>)
    ensures url == "" ==> r == Failure(MissingUrl)
    ensures url != "" && ExtractVideoId(url).None? ==> r == Failure(InvalidUrl)
    ensures url != "" && ExtractVideoId(url).Some? ==> r == Normalize(url, extracted)
  {
    if url == "" {
      return Failure(MissingUrl);
    }
    var videoId := ExtractVideoId(url);
    if videoId.None? {
      return Failure(InvalidUrl);
    }
    r := GetVideoInfo(url, extracted);
  }
}
