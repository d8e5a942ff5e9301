/** The decisions of `/download-status` (app.py:270-312), `/download-file` (app.py:343-388),
    `/downloads/<filename>` (app.py:315-340), `/download-progress` (app.py:256-267) and the
    listing taken by `/confirm-download` (app.py:391-401), over the progress files of the
    working directory and the download folder's listing in `os.listdir` order. */
module Resolver {
  import opened Strings
  import opened Sequences
  import opened Jobs
  import opened VideoId

  /** `re.match(f"video_{download_id}.*", name)`: a prefix test, `.*` matching anything. */
  predicate MatchesJob(downloadId: string, name: string) {
    StartsWith(name, "video_" + downloadId)
  }

  const PartialMarkers: seq<string> := [".part", ".temp", ".f"]

  /** `any(ext in name for ext in ['.part', '.temp', '.f'])` */
  predicate IsPartial(name: string): (r: bool)
    ensures r <==> exists m :: m in PartialMarkers && Contains(name, m)
  {
    Contains(name, ".part") || Contains(name, ".temp") || Contains(name, ".f")
  }

  /** The marker `.f` also occurs in every `.flv` and `.f4v` name, so such files always
      count as partial. */
  lemma FlashNamesArePartial(name: string)
    requires EndsWith(name, ".flv") || EndsWith(name, ".f4v")
    ensures IsPartial(name)
  {
    assert OccursAt(name, ".f", |name| - 4) by {
      assert name[|name| - 4..|name| - 2] == name[|name| - 4..][..2];
      assert (".flv")[..2] == ".f" && (".f4v")[..2] == ".f";
    }
  }

  predicate IsFinishedFile(downloadId: string, name: string) {
    MatchesJob(downloadId, name) && !IsPartial(name)
  }

  /** `matching_files` of the status and force-download handlers. */
  function FinishedFiles(listing: seq<string>, downloadId: string): seq<string> {
    Filter(listing, (n: string) => IsFinishedFile(downloadId, n))
  }

  /** `files_to_delete` of the confirm handler: no partial-name exclusion. */
  function JobFiles(listing: seq<string>, downloadId: string): seq<string> {
    Filter(listing, (n: string) => MatchesJob(downloadId, n))
  }

  /** The appending loops of the three handlers. */
  method CollectFinishedFiles(listing: seq<string>, downloadId: string) returns (matching: seq<string>)
    ensures matching == FinishedFiles(listing, downloadId)
  {
    matching := [];
    var i := 0;
    while i < |listing|
      invariant 0 <= i <= |listing|
      invariant matching == FinishedFiles(listing[..i], downloadId)
    {
      var file := listing[i];
      assert listing[..i + 1][..i] == listing[..i];
      if MatchesJob(downloadId, file) && !IsPartial(file) {
        matching := matching + [file];
      }
      i := i + 1;
    }
    assert listing[..|listing|] == listing;
  }

  method CollectJobFiles(listing: seq<string>, downloadId: string) returns (toDelete: seq<string>)
    ensures toDelete == JobFiles(listing, downloadId)
  {
    toDelete := [];
    var i := 0;
    while i < |listing|
      invariant 0 <= i <= |listing|
      invariant toDelete == JobFiles(listing[..i], downloadId)
    {
      var file := listing[i];
      assert listing[..i + 1][..i] == listing[..i];
      if MatchesJob(downloadId, file) {
        toDelete := toDelete + [file];
      }
      i := i + 1;
    }
    assert listing[..|listing|] == listing;
  }

  // ---- /download-status ----

  datatype Status =
    | NotFound                                                // no progress file
    | Failed                                                  // negative progress
    | Complete(filename: string, filesize: nat, downloadId: string)
    | Downloading(progress: real)

  /** Every listed name has a size (the directory as `os.path.getsize` sees it). */
  ghost predicate SizesKnown(listing: seq<string>, sizes: map<string, nat>) {
    forall n :: n in listing ==> n in sizes
  }

  function ResolveStatus(progress: map<string, real>, listing: seq<string>, sizes: map<string, nat>,
                         downloadId: string): (r: Status)
    requires SizesKnown(listing, sizes)
    ensures r.Downloading? ==> 0.0 <= r.progress < 100.0
  {
    var pf := ProgressFileName(downloadId);
    if pf !in progress then NotFound
    else if progress[pf] < 0.0 then Failed
    else
      var matching := FinishedFiles(listing, downloadId);
      if matching != [] then Complete(matching[0], sizes[matching[0]], downloadId)
      else if progress[pf] >= 100.0 then Downloading(99.0)
      else Downloading(progress[pf])
  }

  method DownloadStatus(progress: map<string, real>, listing: seq<string>, sizes: map<string, nat>,
                        downloadId: string) returns (s: Status)
    requires SizesKnown(listing, sizes)
    ensures s == ResolveStatus(progress, listing, sizes, downloadId)
  {
    var progressFile := ProgressFileName(downloadId);
    if progressFile !in progress {
      return NotFound;
    }
    var value := progress[progressFile];
    if value < 0.0 {
      return Failed;
    }
    var matching := CollectFinishedFiles(listing, downloadId);
    if matching != [] {
      var filename := matching[0];
      return Complete(filename, sizes[filename], downloadId);
    }
    if value >= 100.0 {
      return Downloading(99.0);
    }
    return Downloading(value);
  }

  /** The resolver's order of decisions: a missing progress file, then a negative value
      (even when a finished file is listed), then the first finished file in listing order,
      then the progress, held at 99 once it reaches 100. */
  lemma StatusResolution(progress: map<string, real>, listing: seq<string>, sizes: map<string, nat>,
                         downloadId: string)
    requires SizesKnown(listing, sizes)
    ensures var r := ResolveStatus(progress, listing, sizes, downloadId);
            var pf := ProgressFileName(downloadId);
            && (r == NotFound <==> pf !in progress)
            && (r == Failed <==> pf in progress && progress[pf] < 0.0)
            && (r.Complete? <==>
                  pf in progress && progress[pf] >= 0.0
                  && exists i :: 0 <= i < |listing| && IsFinishedFile(downloadId, listing[i]))
            && (r.Complete? ==>
                  && r.downloadId == downloadId
                  && r.filename in sizes && r.filesize == sizes[r.filename]
                  && exists i :: && 0 <= i < |listing| && listing[i] == r.filename
                                 && IsFinishedFile(downloadId, listing[i])
                                 && forall j :: 0 <= j < i ==> !IsFinishedFile(downloadId, listing[j]))
            && (r.Downloading? ==>
                  pf in progress && r.progress == (if progress[pf] >= 100.0 then 99.0 else progress[pf]))
  {
    FilterFirst(listing, (n: string) => IsFinishedFile(downloadId, n));
  }

  /** Completion follows the listing alone: any non-negative progress value reports the
      first finished file. */
  lemma CompleteWheneverFinishedFileListed(progress: map<string, real>, listing: seq<string>,
                                           sizes: map<string, nat>, downloadId: string, i: int)
    requires SizesKnown(listing, sizes)
    requires ProgressFileName(downloadId) in progress && progress[ProgressFileName(downloadId)] >= 0.0
    requires 0 <= i < |listing| && IsFinishedFile(downloadId, listing[i])
    ensures ResolveStatus(progress, listing, sizes, downloadId).Complete?
  {
    StatusResolution(progress, listing, sizes, downloadId);
  }

  // ---- mimetype and the file handlers ----

  function Mimetype(filename: string): (r: string)
    ensures EndsWith(filename, ".mp4") ==> r == "video/mp4"
    ensures EndsWith(filename, ".webm") ==> r == "video/webm"
    ensures EndsWith(filename, ".mp3") ==> r == "audio/mpeg"
    ensures r == "application/octet-stream" <==>
              !EndsWith(filename, ".mp4") && !EndsWith(filename, ".webm") && !EndsWith(filename, ".mp3")
  {
    SuffixesExclusive(filename);
    if EndsWith(filename, ".mp4") then "video/mp4"
    else if EndsWith(filename, ".webm") then "video/webm"
    else if EndsWith(filename, ".mp3") then "audio/mpeg"
    else "application/octet-stream"
  }

  /** A name ends in at most one of `.mp4`, `.webm` and `.mp3`, so the order of the tests
      does not matter. */
  lemma SuffixesExclusive(name: string)
    ensures !(EndsWith(name, ".mp4") && EndsWith(name, ".webm"))
    ensures !(EndsWith(name, ".mp4") && EndsWith(name, ".mp3"))
    ensures !(EndsWith(name, ".webm") && EndsWith(name, ".mp3"))
  {
    if |name| >= 4 {
      var n := |name|;
      assert name[n - 4..][3] == name[n - 1];
      assert name[n - 4..][1] == name[n - 3];
      if |name| >= 5 {
        assert name[n - 5..][4] == name[n - 1];
        assert name[n - 5..][2] == name[n - 3];
      }
    }
  }

  predicate IsMp4(name: string) { EndsWith(name, ".mp4") }

  datatype FileReply = FileNotFound | SendFile(filename: string, mimetype: string)

  /** `/download-file`: 404 without a finished file, else the first finished MP4 file if
      there is one, else the first finished file. */
  function ForceDownloadReply(listing: seq<string>, downloadId: string): (r: FileReply)
    ensures r == FileNotFound <==> FinishedFiles(listing, downloadId) == []
    ensures r.SendFile? ==> r.filename in listing && IsFinishedFile(downloadId, r.filename)
    ensures r.SendFile? ==> r.mimetype == Mimetype(r.filename)
    ensures r.SendFile? && Filter(FinishedFiles(listing, downloadId), IsMp4) != [] ==> IsMp4(r.filename)
  {
    var matching := FinishedFiles(listing, downloadId);
    if matching == [] then FileNotFound
    else
      var mp4Files := Filter(matching, IsMp4);
      var filename := if mp4Files != [] then mp4Files[0] else matching[0];
      SendFile(filename, Mimetype(filename))
  }

  method ForceDownload(listing: seq<string>, downloadId: string) returns (r: FileReply)
    ensures r == ForceDownloadReply(listing, downloadId)
  {
    var matching := CollectFinishedFiles(listing, downloadId);
    if matching == [] {
      return FileNotFound;
    }
    var mp4Files := Filter(matching, IsMp4);
    var filename := if mp4Files != [] then mp4Files[0] else matching[0];
    r := SendFile(filename, Mimetype(filename));
  }

  /** `listing[i]` is the file `/download-file` should send: a finished file of the job,
      an MP4 one unless the job has none, and the first such in listing order. */
  ghost predicate ChosenAt(listing: seq<string>, downloadId: string, i: int) {
    && 0 <= i < |listing|
    && IsFinishedFile(downloadId, listing[i])
    && (IsMp4(listing[i]) ||
        forall j :: 0 <= j < |listing| ==> !(IsFinishedFile(downloadId, listing[j]) && IsMp4(listing[j])))
    && forall j :: 0 <= j < i ==>
         !(IsFinishedFile(downloadId, listing[j]) && (IsMp4(listing[j]) || !IsMp4(listing[i])))
  }

  /** The file chosen by `/download-file`. */
  lemma ForceDownloadChoice(listing: seq<string>, downloadId: string)
    ensures var r := ForceDownloadReply(listing, downloadId);
            && (r == FileNotFound <==> forall i :: 0 <= i < |listing| ==> !IsFinishedFile(downloadId, listing[i]))
            && (r.SendFile? ==> r.mimetype == Mimetype(r.filename))
            && (r.SendFile? ==> exists i :: ChosenAt(listing, downloadId, i) && listing[i] == r.filename)
  {
    var finished := (n: string) => IsFinishedFile(downloadId, n);
    FilterFirst(listing, finished);
    var matching := FinishedFiles(listing, downloadId);
    if matching != [] {
      var both := (n: string) => IsFinishedFile(downloadId, n) && IsMp4(n);
      FilterTwice(listing, finished, IsMp4, both);
      if Filter(matching, IsMp4) != [] {
        ChosenMp4(listing, downloadId, both);
      } else {
        ChosenFallback(listing, downloadId, both);
      }
    }
  }

  lemma ChosenMp4(listing: seq<string>, downloadId: string, both: string -> bool)
    requires forall n :: both(n) == (IsFinishedFile(downloadId, n) && IsMp4(n))
    requires Filter(listing, both) != []
    ensures exists i :: ChosenAt(listing, downloadId, i) && listing[i] == Filter(listing, both)[0]
  {
    FilterFirst(listing, both);
    var i :| 0 <= i < |listing| && listing[i] == Filter(listing, both)[0] && both(listing[i])
             && forall j :: 0 <= j < i ==> !both(listing[j]);
    assert ChosenAt(listing, downloadId, i);
  }

  lemma ChosenFallback(listing: seq<string>, downloadId: string, both: string -> bool)
    requires forall n :: both(n) == (IsFinishedFile(downloadId, n) && IsMp4(n))
    requires Filter(listing, both) == [] && FinishedFiles(listing, downloadId) != []
    ensures exists i :: ChosenAt(listing, downloadId, i) && listing[i] == FinishedFiles(listing, downloadId)[0]
  {
    var finished := (n: string) => IsFinishedFile(downloadId, n);
    FilterFirst(listing, finished);
    FilterFirst(listing, both);
    var i :| 0 <= i < |listing| && listing[i] == Filter(listing, finished)[0] && finished(listing[i])
             && forall j :: 0 <= j < i ==> !finished(listing[j]);
    assert ChosenAt(listing, downloadId, i);
  }

  /** `/downloads/<filename>`: the file with its mimetype, or 404. */
  function DownloadFileReply(sizes: map<string, nat>, filename: string): (r: FileReply)
    ensures r == FileNotFound <==> filename !in sizes
    ensures r.SendFile? ==> r.filename == filename && r.mimetype == Mimetype(filename)
  {
    if filename in sizes then SendFile(filename, Mimetype(filename)) else FileNotFound
  }

  /** `/download-progress`: a missing progress file reads as 0. */
  function LegacyProgress(progress: map<string, real>, downloadId: string): (r: real)
    ensures ProgressFileName(downloadId) !in progress ==> r == 0.0
    ensures ProgressFileName(downloadId) in progress ==> r == progress[ProgressFileName(downloadId)]
  {
    var pf := ProgressFileName(downloadId);
    if pf in progress then progress[pf] else 0.0
  }

  // ---- naming seen from the resolver ----

  /** A progress file name never matches any job's output pattern. */
  lemma ProgressFileNeverMatches(jobId: string, downloadId: string)
    ensures !MatchesJob(downloadId, ProgressFileName(jobId))
  {
    var s, p := ProgressFileName(jobId), "video_" + downloadId;
    assert s[0] == 'p' && p[0] == 'v';
    if |p| <= |s| {
      assert s[..|p|][0] == s[0];
    }
  }

  /** The pattern is a prefix test, so the job `<t>_unknown` of a URL without an id also
      matches the output of a different job of the same second whose id begins with
      `unknown`; confirming the first job deletes the other's files too. */
  lemma UnknownJobMatchesOtherJob(timestamp: string, id: string, ext: string)
    requires |id| == IdLength && StartsWith(id, "unknown")
    ensures timestamp + "_" + id != timestamp + "_unknown"
    ensures MatchesJob(timestamp + "_unknown", OutputFileName(timestamp + "_" + id, ext))
  {
    var j := timestamp + "_unknown";
    var name := OutputFileName(timestamp + "_" + id, ext);
    assert |timestamp + "_" + id| != |j|;
    assert name[..|"video_" + j|] == "video_" + j by {
      assert name == "video_" + timestamp + "_" + id + "." + ext;
      forall k | 0 <= k < 7 ensures id[k] == "unknown"[k] {
        StartsWithAt(id, "unknown", k);
      }
    }
  }

  /** With dot-free `pre` and `ext`, `"." + w` occurs in `pre + "." + ext` exactly when `ext`
      starts with `w`. */
  lemma DotMarkerOccurs(pre: string, ext: string, w: string)
    requires NoDots(pre) && NoDots(ext)
    ensures Contains(pre + "." + ext, "." + w) <==> StartsWith(ext, w)
  {
    var name := pre + "." + ext;
    var sub := "." + w;
    var d := |pre|;
    if StartsWith(ext, w) {
      assert name[d..d + |sub|] == sub by {
        forall k | 0 <= k < |sub| ensures name[d + k] == sub[k] {
          if k > 0 { StartsWithAt(ext, w, k - 1); }
        }
      }
      assert OccursAt(name, sub, d);
    }
    if Contains(name, sub) {
      var i :| 0 <= i <= |name| - |sub| && OccursAt(name, sub, i);
      assert name[i] == name[i..i + |sub|][0] == '.';
      assert forall k :: 0 <= k < d ==> name[k] == pre[k];
      assert forall k :: d < k < |name| ==> name[k] == ext[k - d - 1];
      assert i == d;
      DotMarkerAtDot(pre, ext, w);
    }
  }

  /** An occurrence of `"." + w` at the dot itself spells `w` at the start of `ext`. */
  lemma DotMarkerAtDot(pre: string, ext: string, w: string)
    requires OccursAt(pre + "." + ext, "." + w, |pre|)
    ensures StartsWith(ext, w)
  {
    var name, sub, d := pre + "." + ext, "." + w, |pre|;
    forall k | 0 <= k < |w| ensures ext[k] == w[k] {
      calc {
        ext[k];
        name[d + 1 + k];
        name[d..d + |sub|][k + 1];
        sub[k + 1];
        w[k];
      }
    }
    assert ext[..|w|] == w;
  }

  /** The file the engine writes for a job whose timestamp has no dot, with a dot-free
      extension, is reported by the resolver exactly when the extension does not begin
      with `part`, `temp` or `f`: `mp4` and `webm` are found, `flv` and `f4v` never. */
  lemma OutputFileIsFinished(timestamp: string, url: string, ext: string)
    requires NoDots(timestamp) && NoDots(ext)
    ensures var j := JobId(timestamp, url);
            IsFinishedFile(j, OutputFileName(j, ext)) <==>
              !(StartsWith(ext, "part") || StartsWith(ext, "temp") || StartsWith(ext, "f"))
  {
    var j := JobId(timestamp, url);
    var pre := "video_" + j;
    JobIdHasNoDots(timestamp, url);
    assert NoDots(pre) by {
      forall k | 0 <= k < |pre| ensures pre[k] != '.' {
        if k >= 6 { assert pre[k] == j[k - 6]; }
      }
    }
    var name := OutputFileName(j, ext);
    assert name == pre + "." + ext;
    assert name[..|pre|] == pre;
    assert MatchesJob(j, name);
    assert ".part" == "." + "part" && ".temp" == "." + "temp" && ".f" == "." + "f";
    DotMarkerOccurs(pre, ext, "part");
    DotMarkerOccurs(pre, ext, "temp");
    DotMarkerOccurs(pre, ext, "f");
  }
}
