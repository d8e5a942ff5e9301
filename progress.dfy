/** The progress hook registered with the download engine (app.py:190-200) and the failure
    sentinel written by the worker (app.py:234-237), as values written to a job's progress
    file. */
module Progress {
  import opened Wrappers

  /** One callback of the engine: `d['status']` and the byte counts it carries (an absent
      `downloaded_bytes` or `total_bytes_estimate` is 0). The estimate may be fractional. */
  datatype HookEvent = HookEvent(status: string, downloadedBytes: int, totalBytes: Option<int>, totalBytesEstimate: real)

  const InitialValue: real := 0.0
  const FinishedValue: real := 100.0
  const FailedValue: real := -1.0

  /** `d.get('total_bytes') or d.get('total_bytes_estimate', 0)`: the exact total when it is
      present and non-zero, otherwise the estimate. */
  function Total(ev: HookEvent): (r: real)
    ensures ev.totalBytes.Some? && ev.totalBytes.value != 0 ==> r == ev.totalBytes.value as real
    ensures ev.totalBytes.None? || ev.totalBytes.value == 0 ==> r == ev.totalBytesEstimate
    ensures r == 0.0 <==> ev.totalBytes.GetOr(0) == 0 && ev.totalBytesEstimate == 0.0
  {
    if ev.totalBytes.Some? && ev.totalBytes.value != 0 then ev.totalBytes.value as real else ev.totalBytesEstimate
  }

  /** The value the hook writes for an event, or None when it writes nothing. */
  function Written(ev: HookEvent): (r: Option<real>)
    ensures r.Some? <==> ev.status == "finished" || (ev.status == "downloading" && Total(ev) > 0.0)
    ensures ev.status == "finished" ==> r == Some(FinishedValue)
    ensures ev.status == "downloading" && Total(ev) > 0.0 ==>
              r.Some? && r.value * Total(ev) == (ev.downloadedBytes as real) * 100.0
  {
    if ev.status == "downloading" then
      var total := Total(ev);
      if total > 0.0 then Some((ev.downloadedBytes as real / total) * 100.0) else None
    else if ev.status == "finished" then Some(FinishedValue)
    else None
  }

  /** The progress file's value after the hook has seen `evs`, starting from `start`: the
      start value or one of the values written. */
  function Replay(start: real, evs: seq<HookEvent>): (r: real)
    ensures r == start || exists k :: 0 <= k < |evs| && Written(evs[k]) == Some(r)
  {
    if evs == [] then start
    else
      match Written(evs[|evs| - 1])
      case Some(v) => v
      case None =>
        var init := evs[..|evs| - 1];
        assert forall k :: 0 <= k < |init| ==> init[k] == evs[k];
        Replay(start, init)
  }

  /** Events that write nothing leave the value alone. */
  lemma {:induction false} ReplayWithoutWrites(start: real, evs: seq<HookEvent>)
    requires forall j :: 0 <= j < |evs| ==> Written(evs[j]).None?
    ensures Replay(start, evs) == start
  {
    if evs != [] {
      var init := evs[..|evs| - 1];
      assert forall j :: 0 <= j < |init| ==> init[j] == evs[j];
      ReplayWithoutWrites(start, init);
    }
  }

  /** Otherwise the value is the last one written: the file is overwritten each time. */
  lemma {:induction false} ReplayIsLastWrite(start: real, evs: seq<HookEvent>, k: int)
    requires 0 <= k < |evs| && Written(evs[k]).Some?
    requires forall j :: k < j < |evs| ==> Written(evs[j]).None?
    ensures Replay(start, evs) == Written(evs[k]).value
  {
    if k < |evs| - 1 {
      var init := evs[..|evs| - 1];
      assert forall j :: 0 <= j < |init| ==> init[j] == evs[j];
      ReplayIsLastWrite(start, init, k);
    }
  }

  /** The byte counts of an event are consistent: never negative, never beyond the total. */
  ghost predicate Consistent(ev: HookEvent) {
    ev.status == "downloading" && Total(ev) > 0.0 ==> 0 <= ev.downloadedBytes && ev.downloadedBytes as real <= Total(ev)
  }

  lemma WrittenInRange(ev: HookEvent)
    requires Consistent(ev)
    ensures Written(ev).Some? ==> 0.0 <= Written(ev).value <= 100.0
  {
    if ev.status == "downloading" && Total(ev) > 0.0 {
      var d, t := ev.downloadedBytes as real, Total(ev);
      assert 0.0 <= d / t <= 1.0 by {
        assert d / t * t == d;
      }
    }
  }

  /** With consistent events the value stays a percentage, so only a worker failure can
      make it negative. */
  lemma {:induction false} ReplayInRange(start: real, evs: seq<HookEvent>)
    requires 0.0 <= start <= 100.0
    requires forall j :: 0 <= j < |evs| ==> Consistent(evs[j])
    ensures 0.0 <= Replay(start, evs) <= 100.0
  {
    if evs != [] {
      var init := evs[..|evs| - 1];
      assert forall j :: 0 <= j < |init| ==> init[j] == evs[j];
      ReplayInRange(start, init);
      WrittenInRange(evs[|evs| - 1]);
    }
  }
}
