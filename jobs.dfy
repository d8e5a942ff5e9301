/** Job naming and download options built by the `/download` handler
    (app.py:179-186, 204-228). The clock reading is an input: the timestamp text. */
module Jobs {
  import opened Wrappers
  import opened Strings
  import opened VideoId

  const DownloadFolder: string := "downloads"

  /** `extract_video_id(url) or 'unknown'` */
  function ResourceId(url: string): (r: string)
    ensures r == "unknown" || (|r| == IdLength && AllIdChars(r))
  {
    match ExtractVideoId(url)
    case Some(id) => id
    case None => "unknown"
  }

  /** `f"{timestamp}_{video_id}"`: the timestamp, an underscore, then the resource id. */
  function JobId(timestamp: string, url: string): (r: string)
    ensures |r| == |timestamp| + 1 + |ResourceId(url)|
    ensures r[..|timestamp|] == timestamp && r[|timestamp|] == '_'
    ensures r[|timestamp| + 1..] == ResourceId(url)
  {
    timestamp + "_" + ResourceId(url)
  }

  /** The name the download engine gives its output in the download folder once it knows the
      extension: the template below with `%(ext)s` filled in. */
  function OutputFileName(jobId: string, ext: string): string {
    "video_" + jobId + "." + ext
  }

  /** `os.path.join('downloads', f"video_{unique_id}.%(ext)s")`: a path inside the download
      folder whose file part is the job's output name with the extension left to the engine. */
  function OutputTemplate(jobId: string): (r: string)
    ensures StartsWith(r, DownloadFolder + "/")
    ensures r[|DownloadFolder| + 1..] == OutputFileName(jobId, "%(ext)s")
  {
    DownloadFolder + "/" + OutputFileName(jobId, "%(ext)s")
  }

  /** The progress file, kept in the working directory; the job id can be read back from
      its name. */
  function ProgressFileName(jobId: string): (r: string)
    ensures StartsWith(r, "progress_") && EndsWith(r, ".txt")
    ensures |r| == |jobId| + 13 && r[9..|r| - 4] == jobId
  {
    "progress_" + jobId + ".txt"
  }

  /** A job id splits back into its timestamp and resource id when timestamps have one
      fixed width (the source's `%Y%m%d_%H%M%S`). */
  lemma JobIdDecomposes(t1: string, u1: string, t2: string, u2: string)
    requires |t1| == |t2|
    requires JobId(t1, u1) == JobId(t2, u2)
    ensures t1 == t2 && ResourceId(u1) == ResourceId(u2)
  {
    var j := JobId(t1, u1);
    assert j[..|t1|] == t1;
    assert JobId(t2, u2)[..|t2|] == t2;
    assert j[|t1| + 1..] == ResourceId(u1);
    assert JobId(t2, u2)[|t2| + 1..] == ResourceId(u2);
  }

  predicate NoDots(s: string) {
    forall k :: 0 <= k < |s| ==> s[k] != '.'
  }

  /** A job id carries no dot when its timestamp carries none. */
  lemma JobIdHasNoDots(timestamp: string, url: string)
    requires NoDots(timestamp)
    ensures NoDots(JobId(timestamp, url))
  {
    var r := ResourceId(url);
    var j := JobId(timestamp, url);
    forall k | 0 <= k < |j| ensures j[k] != '.' {
      if k > |timestamp| {
        assert j[k] == r[k - |timestamp| - 1];
        if r != "unknown" {
          assert IsIdChar(r[k - |timestamp| - 1]);
        }
      }
    }
  }

  datatype Postprocessor = ExtractAudio(preferredCodec: string, preferredQuality: string)

  /** The options handed to the download engine. */
  datatype DownloadOptions = DownloadOptions(
    format: string,
    outtmpl: string,
    postprocessor: Option<Postprocessor>,
    mergeOutputFormat: Option<string>)

  /** The format selector: best audio for an audio request; otherwise the best stream (or,
      adaptive, the best video merged with the best audio) no taller than `quality`, falling
      back to the best overall. `quality` is the text the request's value renders as. */
  function FormatSelector(downloadType: string, isAdaptive: bool, quality: string): (r: string)
    ensures downloadType == "audio" <==> r == "bestaudio"
    ensures downloadType != "audio" ==> EndsWith(r, "/best")
    ensures downloadType != "audio" ==>
              (isAdaptive <==> StartsWith(r, "bestvideo[height<=" + quality + "]+bestaudio"))
    ensures downloadType != "audio" && !isAdaptive ==> StartsWith(r, "best[height<=" + quality + "]")
  {
    if downloadType == "audio" then "bestaudio"
    else if isAdaptive then "bestvideo[height<=" + quality + "]+bestaudio/best"
    else "best[height<=" + quality + "]/best"
  }

  /** `ydl_opts`: audio requests are transcoded to 192 kbit/s MP3, video requests merged to MP4. */
  function DownloadOptionsFor(downloadType: string, isAdaptive: bool, quality: string, outtmpl: string): (r: DownloadOptions)
    ensures r.format == FormatSelector(downloadType, isAdaptive, quality) && r.outtmpl == outtmpl
    ensures r.postprocessor.Some? <==> downloadType == "audio"
    ensures r.mergeOutputFormat.Some? <==> downloadType != "audio"
    ensures downloadType == "audio" ==> r.postprocessor == Some(ExtractAudio("mp3", "192"))
    ensures downloadType != "audio" ==> r.mergeOutputFormat == Some("mp4")
  {
    if downloadType == "audio" then
      DownloadOptions(FormatSelector(downloadType, isAdaptive, quality), outtmpl,
                      Some(ExtractAudio("mp3", "192")), None)
    else
      DownloadOptions(FormatSelector(downloadType, isAdaptive, quality), outtmpl, None, Some("mp4"))
  }
}
