/** The server's on-disk state as the handlers change it: the progress files of the working
    directory (name to value) and the download folder (its `os.listdir` order and each
    file's size). */
module Store {
  import opened Sequences
  import opened Jobs
  import opened Progress
  import opened Resolver

  class FileStore {
    var progress: map<string, real>
    var listing: seq<string>
    var sizes: map<string, nat>

    /** The listing names exactly the files that have a size. */
    ghost predicate Valid()
      reads this
    {
      forall n :: n in listing <==> n in sizes
    }

    /** The state found at start-up: the server clears neither the progress files nor the
        download folder. */
    constructor (progress0: map<string, real>, listing0: seq<string>, sizes0: map<string, nat>)
      requires forall n :: n in listing0 <==> n in sizes0
      ensures Valid()
      ensures progress == progress0 && listing == listing0 && sizes == sizes0
    {
      progress := progress0;
      listing := listing0;
      sizes := sizes0;
    }

    /** `/download`: names the job, writes `0` to its progress file before the worker starts,
        and builds the engine's options. The request's `itag` is not consulted. */
    method Download(timestamp: string, url: string, downloadType: string, isAdaptive: bool, quality: string)
      returns (jobId: string, videoId: string, opts: DownloadOptions)
      modifies this
      ensures jobId == JobId(timestamp, url) && videoId == ResourceId(url)
      ensures opts == DownloadOptionsFor(downloadType, isAdaptive, quality, OutputTemplate(jobId))
      ensures progress == old(progress)[ProgressFileName(jobId) := InitialValue]
      ensures listing == old(listing) && sizes == old(sizes)
    {
      videoId := ResourceId(url);
      jobId := timestamp + "_" + videoId;
      var outputTemplate := OutputTemplate(jobId);
      progress := progress[ProgressFileName(jobId) := InitialValue];
      opts := DownloadOptionsFor(downloadType, isAdaptive, quality, outputTemplate);
    }

    /** `progress_hook`: overwrites the progress file when the event carries a value. */
    method ProgressHook(jobId: string, ev: HookEvent)
      modifies this
      ensures Written(ev).Some? ==> progress == old(progress)[ProgressFileName(jobId) := Written(ev).value]
      ensures Written(ev).None? ==> progress == old(progress)
      ensures listing == old(listing) && sizes == old(sizes)
    {
      var progressFile := ProgressFileName(jobId);
      if ev.status == "downloading" {
        var downloaded := ev.downloadedBytes;
        var total := Total(ev);
        if total > 0.0 {
          var value := (downloaded as real / total) * 100.0;
          progress := progress[progressFile := value];
        }
      } else if ev.status == "finished" {
        progress := progress[progressFile := FinishedValue];
      }
    }

    /** The worker's exception handler: writes the failure sentinel. */
    method WorkerFailed(jobId: string)
      modifies this
      ensures progress == old(progress)[ProgressFileName(jobId) := FailedValue]
      ensures listing == old(listing) && sizes == old(sizes)
    {
      progress := progress[ProgressFileName(jobId) := FailedValue];
    }

    /** One run of `download_thread`: the engine reports `events` to the hook and then either
        returns or raises (`failed`). */
    method RunWorker(jobId: string, events: seq<HookEvent>, failed: bool)
      requires ProgressFileName(jobId) in progress
      modifies this
      ensures progress == old(progress)[ProgressFileName(jobId) :=
                if failed then FailedValue else Replay(old(progress)[ProgressFileName(jobId)], events)]
      ensures listing == old(listing) && sizes == old(sizes)
    {
      var progressFile := ProgressFileName(jobId);
      ghost var start := progress[progressFile];
      var i := 0;
      while i < |events|
        invariant 0 <= i <= |events|
        invariant progress == old(progress)[progressFile := Replay(start, events[..i])]
        invariant listing == old(listing) && sizes == old(sizes)
      {
        assert events[..i + 1][..i] == events[..i];
        ProgressHook(jobId, events[i]);
        i := i + 1;
      }
      assert events[..|events|] == events;
      if failed {
        WorkerFailed(jobId);
      }
    }

    /** One `os.remove` guarded by `os.path.exists`: a file already gone is skipped. The
        listing is the folder's view, so the name leaves it either way. */
    method RemoveIfExists(name: string)
      modifies this
      ensures sizes == old(sizes) - {name}
      ensures listing == Without(old(listing), {name})
      ensures progress == old(progress)
    {
      if name in sizes {
        sizes := sizes - {name};
      }
      listing := Without(listing, {name});
    }

    /** The deletion loop of `delete_files_after_delay`, in list order. */
    method RemoveAll(toDelete: seq<string>)
      requires Valid()
      modifies this
      ensures Valid()
      ensures sizes == old(sizes) - (set n | n in toDelete)
      ensures listing == Without(old(listing), set n | n in toDelete)
      ensures progress == old(progress)
    {
      ghost var listing0, sizes0 := listing, sizes;
      WithoutNone(listing, {});
      ghost var done: set<string> := {};
      var i := 0;
      while i < |toDelete|
        invariant 0 <= i <= |toDelete|
        invariant done == set n | n in toDelete[..i]
        invariant sizes == sizes0 - done
        invariant listing == Without(listing0, done)
        invariant progress == old(progress)
      {
        var filePath := toDelete[i];
        assert toDelete[..i + 1] == toDelete[..i] + [filePath];
        RemovalStep(listing0, sizes0, toDelete[..i], toDelete[..i + 1], filePath, done);
        RemoveIfExists(filePath);
        done := done + {filePath};
        i := i + 1;
      }
      RemovalDone(listing0, sizes0, toDelete, done);
    }

    /** `delete_files_after_delay`: removes each listed file that still exists, then the
        progress file. */
    method Sweep(toDelete: seq<string>, downloadId: string)
      requires Valid()
      modifies this
      ensures Valid()
      ensures sizes == old(sizes) - (set n | n in toDelete)
      ensures listing == Without(old(listing), set n | n in toDelete)
      ensures progress == old(progress) - {ProgressFileName(downloadId)}
    {
      RemoveAll(toDelete);
      var progressFile := ProgressFileName(downloadId);
      if progressFile in progress {
        progress := progress - {progressFile};
      }
    }

    /** `/confirm-download` with its delayed sweep taken as one step: every file matching the
        job's pattern when it is confirmed, partial files included, and the progress file
        are removed; every other file is kept. */
    method ConfirmDownload(downloadId: string) returns (toDelete: seq<string>)
      requires Valid()
      modifies this
      ensures Valid()
      ensures toDelete == JobFiles(old(listing), downloadId)
      ensures forall n :: n in sizes ==> !MatchesJob(downloadId, n)
      ensures forall n :: n in old(sizes) && !MatchesJob(downloadId, n) ==> n in sizes && sizes[n] == old(sizes)[n]
      ensures listing == Without(old(listing), set n | n in toDelete)
      ensures ProgressFileName(downloadId) !in progress
      ensures progress == old(progress) - {ProgressFileName(downloadId)}
    {
      toDelete := CollectJobFiles(listing, downloadId);
      FilterKeepsAll(listing, (n: string) => MatchesJob(downloadId, n));
      Sweep(toDelete, downloadId);
    }
  }

  /** One more name deleted: the bookkeeping of the deletion loop advances by that name. */
  lemma RemovalStep(listing0: seq<string>, sizes0: map<string, nat>, prefix: seq<string>, next: seq<string>,
                    name: string, done: set<string>)
    requires next == prefix + [name] && done == set n | n in prefix
    ensures (set n | n in next) == done + {name}
    ensures Without(Without(listing0, done), {name}) == Without(listing0, done + {name})
    ensures (sizes0 - done) - {name} == sizes0 - (done + {name})
  {
    WithoutTwice(listing0, done, {name});
  }

  /** After the last name, the names deleted are the whole list, and listing and sizes still
      agree. */
  lemma RemovalDone(listing0: seq<string>, sizes0: map<string, nat>, toDelete: seq<string>, done: set<string>)
    requires done == set n | n in toDelete[..|toDelete|]
    requires forall n :: n in listing0 <==> n in sizes0
    ensures done == set n | n in toDelete
    ensures forall n :: n in Without(listing0, done) <==> n in sizes0 - done
  {
    assert toDelete[..|toDelete|] == toDelete;
    WithoutMembers(listing0, done);
  }

  /** Sweeping the same names again finds nothing more to delete. */
  lemma SweepIdempotent(listing: seq<string>, sizes: map<string, nat>, gone: set<string>)
    ensures Without(Without(listing, gone), gone) == Without(listing, gone)
    ensures (sizes - gone) - gone == sizes - gone
  {
    WithoutTwice(listing, gone, gone);
    assert gone + gone == gone;
  }
}
